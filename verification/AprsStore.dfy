/** The per-event position store: one pool of participants, one of other stations kept in
    least-recently-heard order and capped, and a bounded trail per station. */
module AprsStore {
  import opened PyText

  const TRAIL_MAX_POINTS := 120
  const OTHER_STATIONS_CAP := 200

  datatype TrackPoint = TrackPoint(lat: real, lon: real, ts: int, posSeq: nat)

  datatype Kind = Participant | Other

  datatype Station = Station(
    id: string, kind: Kind, callsign: Option<string>, symbol: Option<string>, comment: Option<string>,
    lastHeard: int, points: seq<TrackPoint>)

  /** One position report. */
  datatype Report = Report(
    id: string, lat: real, lon: real, kind: Kind, callsign: Option<string>, symbol: Option<string>,
    comment: Option<string>, ts: int)

  /** Both pools in their dictionaries' order, and the last sequence number given out. */
  datatype Pools = Pools(participants: seq<Station>, others: seq<Station>, seqNo: nat)

  /** The last n elements: what a deque with that maximum length keeps. */
  function LastN<T>(s: seq<T>, n: nat): (r: seq<T>)
    ensures |r| == if |s| <= n then |s| else n
  {
    if |s| <= n then s else s[|s| - n..]
  }

  function Position(pool: seq<Station>, id: string): (i: nat)
    ensures i <= |pool|
    ensures i < |pool| ==> pool[i].id == id
    ensures forall j :: 0 <= j < i ==> pool[j].id != id
  {
    if pool == [] then 0 else if pool[0].id == id then 0 else 1 + Position(pool[1..], id)
  }

  predicate Has(pool: seq<Station>, id: string) { Position(pool, id) < |pool| }

  function Without(pool: seq<Station>, i: nat): (r: seq<Station>)
    requires i < |pool|
  {
    pool[..i] + pool[i + 1..]
  }

  /** `pool[id] = station`: an existing key keeps its place, a new one goes to the end. */
  function Put(pool: seq<Station>, s: Station): (r: seq<Station>)
  {
    var i := Position(pool, s.id);
    if i < |pool| then pool[i := s] else pool + [s]
  }

  function NewStation(r: Report, kind: Kind): Station
  {
    Station(r.id, kind, r.callsign, r.symbol, r.comment, r.ts, [])
  }

  function Heard(s: Station, r: Report, posSeq: nat): Station
  {
    s.(lastHeard := r.ts,
       symbol := if r.symbol.Some? then r.symbol else s.symbol,
       comment := if r.comment.Some? then r.comment else s.comment,
       points := LastN(s.points + [TrackPoint(r.lat, r.lon, r.ts, posSeq)], TRAIL_MAX_POINTS))
  }

  /** A station of the other pool that turns out to be a participant moves over with its trail. */
  function Promoted(p: Pools, r: Report): Pools
  {
    var j := Position(p.others, r.id);
    if r.kind.Participant? && !Has(p.participants, r.id) && j < |p.others| then
      Pools(p.participants + [p.others[j].(kind := Participant, callsign := r.callsign)], Without(p.others, j), p.seqNo)
    else p
  }

  /** The pool's station for the report, or a new one, with the report's point on its trail. */
  function Updated(pool: seq<Station>, r: Report, kind: Kind, n: nat): Station
  {
    var i := Position(pool, r.id);
    Heard(if i < |pool| then pool[i] else NewStation(r, kind), r, n)
  }

  /** The pool without the report's station, which then goes to its recently heard end. */
  function Others(pool: seq<Station>, r: Report, n: nat): seq<Station>
  {
    var i := Position(pool, r.id);
    LastN((if i < |pool| then Without(pool, i) else pool) + [Updated(pool, r, Other, n)], OTHER_STATIONS_CAP)
  }

  /** The pools after a report. A station known as a participant stays one whatever the report says. */
  function Added(p: Pools, r: Report): Pools
  {
    var q := Promoted(p, r);
    var n := p.seqNo + 1;
    if r.kind.Participant? || Has(p.participants, r.id) then
      Pools(Put(q.participants, Updated(q.participants, r, Participant, n)), q.others, n)
    else
      Pools(q.participants, Others(q.others, r, n), n)
  }

  function Dropped(p: Pools): Pools { p.(others := []) }

  predicate UniqueIds(pool: seq<Station>)
  {
    forall i, j :: 0 <= i < j < |pool| ==> pool[i].id != pool[j].id
  }

  /** Each id names one station, in one pool, and the capped pool is within its cap. */
  predicate Consistent(p: Pools)
  {
    && UniqueIds(p.participants) && UniqueIds(p.others) && |p.others| <= OTHER_STATIONS_CAP
    && forall i, j :: 0 <= i < |p.participants| && 0 <= j < |p.others| ==> p.participants[i].id != p.others[j].id
  }

  function After(points: seq<TrackPoint>, since: nat): (r: seq<TrackPoint>)
  {
    if points == [] then []
    else After(points[..|points| - 1], since)
         + if points[|points| - 1].posSeq > since then [points[|points| - 1]] else []
  }

  /** A station as the snapshot reports it. */
  function Shown(s: Station, since: nat): Station { s.(points := After(s.points, since)) }

  function ShownAll(pool: seq<Station>, since: nat): (r: seq<Station>)
    ensures |r| == |pool|
  {
    seq(|pool|, i requires 0 <= i < |pool| => Shown(pool[i], since))
  }

  class EventPositionStore {
    var participants: seq<Station>
    var others: seq<Station>
    var seqNo: nat

    ghost function State(): Pools
      reads this
    {
      Pools(participants, others, seqNo)
    }

    constructor ()
      ensures State() == Pools([], [], 0)
    {
      participants, others, seqNo := [], [], 0;
    }

    method AddPoint(r: Report) returns (posSeq: nat)
      modifies this
      ensures State() == Added(old(State()), r) && posSeq == seqNo == old(seqNo) + 1
    {
      hide Heard, NewStation, Position, Put, Updated, Others, Without;
      seqNo := seqNo + 1;
      posSeq := seqNo;
      var kind := r.kind;
      if Has(participants, r.id) {
        kind := Participant;
      } else if kind.Participant? && Has(others, r.id) {
        var j := Position(others, r.id);
        var promoted := others[j].(kind := Participant, callsign := r.callsign);
        others := Without(others, j);
        participants := participants + [promoted];
      }
      if kind.Participant? {
        TrackParticipant(r);
      } else {
        TrackOther(r);
      }
    }

    method TrackParticipant(r: Report)
      modifies this`participants
      ensures participants == Put(old(participants), Updated(old(participants), r, Participant, seqNo))
    {
      if !Has(participants, r.id) {
        PositionAtEnd(participants, NewStation(r, Participant));
        participants := participants + [NewStation(r, Participant)];
      }
      var i := Position(participants, r.id);
      participants := participants[i := Heard(participants[i], r, seqNo)];
    }

    method TrackOther(r: Report)
      modifies this`others
      ensures others == Others(old(others), r, seqNo)
    {
      hide Heard;
      if !Has(others, r.id) {
        PositionAtEnd(others, NewStation(r, Other));
        others := others + [NewStation(r, Other)];
      }
      var j := Position(others, r.id);
      var station := Heard(others[j], r, seqNo);
      others := Without(others, j) + [station];
      ghost var all := others;
      while |others| > OTHER_STATIONS_CAP
        invariant LastN(others, OTHER_STATIONS_CAP) == LastN(all, OTHER_STATIONS_CAP)
      {
        others := others[1..];
      }
    }

    method DropOthers()
      modifies this
      ensures State() == Dropped(old(State()))
    {
      others := [];
    }

    /** The complete roster, each trail cut to the points after the cursor, and the new cursor. */
    method Snapshot(since: nat) returns (stations: seq<Station>, latest: nat)
      ensures stations == ShownAll(participants + others, since) && latest == seqNo
    {
      var all := participants + others;
      stations := [];
      for i := 0 to |all|
        invariant |stations| == i && forall k :: 0 <= k < i ==> stations[k] == Shown(all[k], since)
      {
        var points := [];
        for j := 0 to |all[i].points|
          invariant points == After(all[i].points[..j], since)
        {
          assert all[i].points[..j + 1][..j] == all[i].points[..j];
          if all[i].points[j].posSeq > since {
            points := points + [all[i].points[j]];
          }
        }
        assert all[i].points[..|all[i].points|] == all[i].points;
        stations := stations + [all[i].(points := points)];
      }
      latest := seqNo;
    }
  }

  lemma PositionAtEnd(pool: seq<Station>, s: Station)
    requires !Has(pool, s.id)
    ensures Put(pool, s) == pool + [s] && Position(pool + [s], s.id) == |pool|
    ensures Without(pool + [s], |pool|) == pool
  {
    var t := pool + [s];
    assert t[|pool|] == s;
    assert forall j :: 0 <= j < |pool| ==> t[j] == pool[j];
    PositionUnique(t, s.id, |pool|);
  }

  lemma {:induction false} PositionUnique(pool: seq<Station>, id: string, i: nat)
    requires i < |pool| && pool[i].id == id && forall j :: 0 <= j < i ==> pool[j].id != id
    ensures Position(pool, id) == i
  {
  }
}
