/** Object beaconing: announcing an event's posts over a connection that can fail at any packet, by
    sending only what changed since the last time. */
module Beacon {
  import opened PyText
  import opened ObjectNames

  type Shown = map<string, Position>  // object name -> where it is

  datatype Packet = Kill(name: string, position: Position) | Live(name: string, position: Position)

  /** What the other stations on the network make of a packet. */
  function Received(live: Shown, p: Packet): Shown
  {
    match p
    case Kill(name, _) => live - {name}
    case Live(name, position) => live[name := position]
  }

  /** The receivers after the packets, in order. */
  function Heard(live: Shown, packets: seq<Packet>): Shown
  {
    if packets == [] then live else Received(Heard(live, packets[..|packets| - 1]), packets[|packets| - 1])
  }

  /** One call of the transmitter and whether it went through. */
  datatype Attempt = Attempt(packet: Packet, ok: bool)

  /** The network behind the connection. A send that fails may or may not have gone out. */
  class Air {
    var live: Shown
    var attempts: seq<Attempt>

    method Send(p: Packet) returns (ok: bool)
      modifies this
      ensures attempts == old(attempts) + [Attempt(p, ok)]
      ensures live == Received(old(live), p) || (!ok && live == old(live))
    {
      ok := false;
      if * {
        live := Received(live, p);
        if * {
          ok := true;
        }
      }
      attempts := attempts + [Attempt(p, ok)];
    }
  }

  /** Sending a plan in order: its first k packets went through, and the next one, if there is one, failed. */
  function Tried(plan: seq<Packet>, k: nat): seq<Attempt>
    requires k <= |plan|
  {
    seq(k, i requires 0 <= i < k => Attempt(plan[i], true)) + if k < |plan| then [Attempt(plan[k], false)] else []
  }

  datatype Outcome = Sent | Broken(at: string) | Unnamed

  function AsMap(objects: seq<Object>): (m: Shown)
    ensures m.Keys == Names(objects)
  {
    if objects == [] then map[]
    else
      AsMap(objects[..|objects| - 1])[objects[|objects| - 1].name := objects[|objects| - 1].position]
  }

  function ByPost(objects: seq<Object>): (m: map<int, string>)
  {
    if objects == [] then map[]
    else ByPost(objects[..|objects| - 1])[objects[|objects| - 1].postId := objects[|objects| - 1].name]
  }

  /** What is live when this connection announced some objects and others were live already. */
  function View(stale: Shown, announced: Shown): Shown { stale + announced }

  /** The names in some order, each once. */
  ghost predicate Enumerates(names: seq<string>, all: set<string>)
  {
    && (forall n :: n in names <==> n in all)
    && forall i, j :: 0 <= i < j < |names| ==> names[i] != names[j]
  }

  function KillPackets(names: seq<string>, announced: Shown): (r: seq<Packet>)
    requires forall n :: n in names ==> n in announced
    ensures |r| == |names| && forall i :: 0 <= i < |names| ==> r[i] == Kill(names[i], announced[names[i]])
  {
    seq(|names|, i requires 0 <= i < |names| => Kill(names[i], announced[names[i]]))
  }

  /** The packets for live objects: everything when forced, else what is new or has moved. */
  function LivePackets(objects: seq<Object>, announced: Shown, force: bool): (r: seq<Packet>)
  {
    if objects == [] then []
    else
      var last := objects[|objects| - 1];
      LivePackets(objects[..|objects| - 1], announced, force)
      + if force || !(last.name in announced && announced[last.name] == last.position)
        then [Live(last.name, last.position)] else []
  }

  /** The two views agree on every name but `n`. */
  predicate AgreeExcept(a: Shown, b: Shown, n: string)
  {
    a - {n} == b - {n}
  }

  /** The names announced and no longer desired, in some order. */
  ghost predicate Gone(gone: seq<string>, announced: Shown, objects: seq<Object>)
  {
    Enumerates(gone, announced.Keys - Names(objects))
  }

  /** What a sync has to send: kills of what is no longer desired, then the live objects. */
  function Plan(gone: seq<string>, announced: Shown, objects: seq<Object>, force: bool): seq<Packet>
    requires forall n :: n in gone ==> n in announced
  {
    KillPackets(gone, announced) + LivePackets(objects, announced, force)
  }

  /** A break leaves the receivers either before or after the packet that failed. */
  predicate HeardUpTo(live: Shown, before: Shown, plan: seq<Packet>, k: nat)
    requires k <= |plan|
  {
    live == Heard(before, plan[..k]) || (k < |plan| && live == Heard(before, plan[..k + 1]))
  }

  method ListNames(names: set<string>) returns (r: seq<string>)
    ensures Enumerates(r, names)
  {
    r := [];
    var left := names;
    while left != {}
      invariant left <= names && (forall n :: n in r <==> n in names && n !in left)
      invariant forall i, j :: 0 <= i < j < |r| ==> r[i] != r[j]
      decreases |left|
    {
      var name :| name in left;
      r, left := r + [name], left - {name};
    }
  }

  class Client {
    var announced: Shown
    var objectsByPost: map<int, string>

    constructor ()
      ensures announced == map[] && objectsByPost == map[]
    {
      announced, objectsByPost := map[], map[];
    }

    /** A new connection: what was announced on the last one is no longer known. */
    method Connected()
      modifies this
      ensures announced == map[] && objectsByPost == map[]
    {
      announced, objectsByPost := map[], map[];
    }

    /** Kills first, then new, moved or (when forced) all objects; k of the planned packets go through. */
    method SendObjects(air: Air, posts: seq<Post>, onAir: bool, force: bool)
        returns (r: Outcome, ghost gone: seq<string>, ghost k: nat)
      modifies this, air
      ensures var desired := if onAir then Desired(posts) else Some([]);
        && (r.Unnamed? <==> desired.None?)
        && (r.Unnamed? ==>
              announced == old(announced) && air.live == old(air.live) && air.attempts == old(air.attempts))
        && (desired.Some? ==>
              && DistinctNames(desired.value) && Gone(gone, old(announced), desired.value)
              && var plan := Plan(gone, old(announced), desired.value, force);
                && k <= |plan| && (r.Sent? <==> k == |plan|) && (r.Broken? ==> r.at == plan[k].name)
                && air.attempts == old(air.attempts) + Tried(plan, k)
                && announced == Heard(old(announced), plan[..k]) && HeardUpTo(air.live, old(air.live), plan, k))
        && (r.Sent? ==> announced == AsMap(desired.value) && objectsByPost == ByPost(desired.value))
        && (!r.Sent? ==> objectsByPost == old(objectsByPost))
    {
      hide Desired, AsMap, LivePackets, Heard, ByPost, Tried, HeardUpTo, DistinctNames;
      gone, k := [], 0;
      var desired := DesiredObjects(posts, onAir);
      if desired.None? {
        return Unnamed, gone, k;
      }
      var objects := desired.value;
      DesiredAreDistinct(posts, onAir);
      var names := ListNames(announced.Keys - Names(objects));
      gone := names;
      ghost var was, live, attempts := announced, air.live, air.attempts;
      ghost var kills, lives := KillPackets(gone, was), LivePackets(objects, was, force);
      var sent := SendKills(air, names);
      if sent < |names| {
        k := sent;
        BrokenEarly(kills, lives, k, was, live, air.live);
        return Broken(names[sent]), gone, k;
      }
      KillsDone(gone, was, kills);
      KillsKeepDesired(gone, was, objects, force);
      ghost var mid := air.live;
      var brokenAt: Option<string>;
      ghost var l: nat;
      brokenAt, l := SendLive(air, objects, force);
      k := |kills| + l;
      TriedAfter(kills, lives, l, attempts, air.attempts);
      HeardAfter(kills, lives, l, was, live, mid, air.live);
      if brokenAt.Some? {
        return Broken(brokenAt.value), gone, k;
      }
      PlanReaches(gone, was, objects, force);
      assert (kills + lives)[..k] == kills + lives;
      objectsByPost := ByPost(objects);
      r := Sent;
    }

    /** The kill loop; the number of kills that went through. */
    method SendKills(air: Air, names: seq<string>) returns (sent: nat)
      requires Enumerates(names, set n | n in names) && forall n :: n in names ==> n in announced
      modifies this`announced, air
      ensures sent <= |names|
      ensures var kills := KillPackets(names, old(announced));
        && air.attempts == old(air.attempts) + Tried(kills, sent)
        && announced == Heard(old(announced), kills[..sent]) && HeardUpTo(air.live, old(air.live), kills, sent)
    {
      hide Heard, HeardUpTo, Received, Tried;
      ghost var was, live := announced, air.live;
      ghost var kills := KillPackets(names, was);
      NothingHeard(kills, was, live);
      for i := 0 to |names|
        invariant announced == Heard(was, kills[..i]) && air.live == Heard(live, kills[..i])
        invariant air.attempts == old(air.attempts) + Went(kills, i)
      {
        StillAnnounced(names, was, i);
        var ok := air.Send(Kill(names[i], announced[names[i]]));
        OneMoreHeard(kills, i, was, live, air.live, ok);
        if !ok {
          return i;
        }
        announced := announced - {names[i]};
      }
      AllHeard(kills, live);
      sent := |names|;
    }

    /** The live loop: where it broke, and the number of packets that went through. */
    method SendLive(air: Air, objects: seq<Object>, force: bool) returns (brokenAt: Option<string>, ghost sent: nat)
      requires DistinctNames(objects)
      modifies this`announced, air
      ensures var lives := LivePackets(objects, old(announced), force);
        && sent <= |lives| && (brokenAt.None? <==> sent == |lives|)
        && (brokenAt.Some? ==> brokenAt.value == lives[sent].name)
        && air.attempts == old(air.attempts) + Tried(lives, sent)
        && announced == Heard(old(announced), lives[..sent]) && HeardUpTo(air.live, old(air.live), lives, sent)
    {
      hide Heard, HeardUpTo, Received, Tried, LivePackets, DistinctNames;
      ghost var was, live := announced, air.live;
      ghost var lives := LivePackets(objects, was, force);
      sent := 0;
      NothingHeard(lives, was, live);
      NothingLive(was, force);
      for i := 0 to |objects|
        invariant sent == |LivePackets(objects[..i], was, force)| <= |lives|
        invariant announced == Heard(was, lives[..sent]) && air.live == Heard(live, lives[..sent])
        invariant air.attempts == old(air.attempts) + Went(lives, sent)
      {
        var o := objects[i];
        LiveStep(objects, i, was, force, lives, sent, announced);
        if force || !(o.name in announced && announced[o.name] == o.position) {
          var ok := air.Send(Live(o.name, o.position));
          OneMoreHeard(lives, sent, was, live, air.live, ok);
          if !ok {
            return Some(o.name), sent;
          }
          sent := sent + 1;
          AnnounceHeard(announced, o.name, o.position);
        } else {
          assert announced[o.name := o.position] == announced;
        }
        announced := announced[o.name := o.position];
      }
      assert objects[..|objects|] == objects;
      AllHeard(lives, live);
      brokenAt := None;
    }

    /** A clean stop: every announced object is killed once, whatever becomes of the others; `missed` are
        the names whose kill failed. */
    method KillAll(air: Air) returns (missed: set<string>, ghost names: seq<string>)
      modifies this, air
      ensures announced == map[] && objectsByPost == map[]
      ensures Enumerates(names, old(announced).Keys) && missed <= old(announced).Keys
      ensures KillsTried(old(air.attempts), air.attempts, names, old(announced), missed)
      ensures Killed(air.live, old(air.live), old(announced).Keys, missed)
      ensures missed == {} ==> air.live == old(air.live) - old(announced).Keys
    {
      hide Received, SameAt, KillsTried, Killed;
      missed := {};
      var list := ListNames(announced.Keys);
      names := list;
      ghost var live, before, done := air.live, air.attempts, {};
      NoneKilled(live, before, list, announced);
      for i := 0 to |list|
        invariant announced == old(announced) && done == (set n | n in list[..i]) && missed <= done <= announced.Keys
        invariant KillsTried(before, air.attempts, list[..i], announced, missed)
        invariant Killed(air.live, live, done, missed)
      {
        var name := list[i];
        ghost var was, tried := air.live, air.attempts;
        assert name !in list[..i] && list[..i + 1] == list[..i] + [name];
        var ok := air.Send(Kill(name, announced[name]));
        KillOne(was, live, air.live, done, missed, name, announced[name], ok);
        TriedOne(before, tried, list[..i], announced, missed, name, ok);
        if !ok {
          missed := missed + {name};
        }
        done := done + {name};
      }
      assert list[..|list|] == list;
      assert done == announced.Keys;
      if missed == {} {
        NoneMissed(air.live, live, announced.Keys);
      }
      announced, objectsByPost := map[], map[];
    }
  }

  /** One kill of each name was sent, in order, and exactly the missed ones failed. */
  ghost predicate KillsTried(before: seq<Attempt>, now: seq<Attempt>, names: seq<string>, announced: Shown,
                             missed: set<string>)
    requires forall n :: n in names ==> n in announced
  {
    && |now| == |before| + |names| && before <= now
    && forall i :: 0 <= i < |names| ==>
         now[|before| + i] == Attempt(Kill(names[i], announced[names[i]]), names[i] !in missed)
  }

  /** Of the names tried, only missed ones can still be seen, as they were; all others are as they were. */
  ghost predicate Killed(now: Shown, was: Shown, tried: set<string>, missed: set<string>)
  {
    forall n: string ::
      if n in tried && n !in missed then n !in now else SameAt(now, was, n) || (n in tried && n !in now)
  }

  lemma NoneKilled(live: Shown, before: seq<Attempt>, list: seq<string>, announced: Shown)
    ensures Killed(live, live, {}, {}) && KillsTried(before, before, list[..0], announced, {})
  {
  }

  lemma KillOne(was: Shown, live: Shown, now: Shown, done: set<string>, missed: set<string>, name: string,
                position: Position, ok: bool)
    requires Killed(was, live, done, missed) && name !in done
    requires now == Received(was, Kill(name, position)) || (!ok && now == was)
    ensures Killed(now, live, done + {name}, if ok then missed else missed + {name})
  {
    forall n: string
      ensures n != name ==> (SameAt(was, live, n) <==> SameAt(now, live, n)) && (n in was <==> n in now)
    {
    }
  }

  lemma TriedOne(before: seq<Attempt>, tried: seq<Attempt>, names: seq<string>, announced: Shown, missed: set<string>,
                 name: string, ok: bool)
    requires name !in names && name in announced && name !in missed && forall n :: n in names ==> n in announced
    requires KillsTried(before, tried, names, announced, missed)
    ensures KillsTried(before, tried + [Attempt(Kill(name, announced[name]), ok)], names + [name], announced,
                       if ok then missed else missed + {name})
  {
  }

  lemma DesiredAreDistinct(posts: seq<Post>, onAir: bool)
    ensures var desired := if onAir then Desired(posts) else Some([]);
      desired.Some? ==> DistinctNames(desired.value)
  {
    hide Desired;
    if onAir && Desired(posts).Some? {
      DesiredNamesDistinct(posts);
    }
  }

  /** The attempts of k packets that all went through. */
  function Went(plan: seq<Packet>, k: nat): seq<Attempt>
    requires k <= |plan|
  {
    seq(k, i requires 0 <= i < k => Attempt(plan[i], true))
  }

  lemma NothingHeard(plan: seq<Packet>, was: Shown, live: Shown)
    ensures Heard(was, plan[..0]) == was && Heard(live, plan[..0]) == live && Went(plan, 0) == []
  {
  }

  lemma AllHeard(plan: seq<Packet>, live: Shown)
    ensures Tried(plan, |plan|) == Went(plan, |plan|) && HeardUpTo(Heard(live, plan[..|plan|]), live, plan, |plan|)
  {
  }

  lemma HeardSnoc(live: Shown, plan: seq<Packet>, i: nat)
    requires i < |plan|
    ensures Heard(live, plan[..i + 1]) == Received(Heard(live, plan[..i]), plan[i])
  {
    assert plan[..i + 1][..i] == plan[..i];
  }

  /** After one more send: what its going through and its failing mean. */
  lemma OneMoreHeard(plan: seq<Packet>, i: nat, was: Shown, live: Shown, now: Shown, ok: bool)
    requires i < |plan|
    requires var before := Heard(live, plan[..i]); now == Received(before, plan[i]) || (!ok && now == before)
    ensures HeardUpTo(now, live, plan, i) && Tried(plan, i) == Went(plan, i) + [Attempt(plan[i], false)]
    ensures Went(plan, i + 1) == Went(plan, i) + [Attempt(plan[i], true)]
    ensures Heard(was, plan[..i + 1]) == Received(Heard(was, plan[..i]), plan[i])
    ensures ok ==> now == Heard(live, plan[..i + 1])
  {
    hide Received;
    HeardSnoc(live, plan, i);
    HeardSnoc(was, plan, i);
  }

  lemma AnnounceHeard(announced: Shown, name: string, position: Position)
    ensures Received(announced, Live(name, position)) == announced[name := position]
  {
  }

  lemma {:induction false} HeardKills(names: seq<string>, was: Shown, i: nat)
    requires i <= |names| && forall n :: n in names ==> n in was
    ensures Heard(was, KillPackets(names, was)[..i]) == was - (set n | n in names[..i])
  {
    if i > 0 {
      HeardKills(names, was, i - 1);
      HeardSnoc(was, KillPackets(names, was), i - 1);
      assert names[..i] == names[..i - 1] + [names[i - 1]];
    }
  }

  lemma StillAnnounced(names: seq<string>, was: Shown, i: nat)
    requires i < |names| && (forall n :: n in names ==> n in was)
    requires forall j, k :: 0 <= j < k < |names| ==> names[j] != names[k]
    ensures var now := Heard(was, KillPackets(names, was)[..i]);
      && names[i] in now && now[names[i]] == was[names[i]]
      && Received(now, Kill(names[i], was[names[i]])) == now - {names[i]}
  {
    HeardKills(names, was, i);
    assert names[i] !in names[..i];
  }

  lemma NoneMissed(now: Shown, live: Shown, all: set<string>)
    requires Killed(now, live, all, {})
    ensures now == live - all
  {
    forall n: string
      ensures n in now <==> n in live - all
      ensures n in now ==> now[n] == (live - all)[n]
    {
      assert n in all || SameAt(now, live, n);
    }
  }

  /** The two views show the same under one name. */
  predicate SameAt(a: Shown, b: Shown, n: string)
  {
    (n in a <==> n in b) && (n in a ==> a[n] == b[n])
  }

  // ---------------------------------------------------------------------------
  // Plans

  lemma BrokenEarly(kills: seq<Packet>, lives: seq<Packet>, k: nat, was: Shown, live: Shown, now: Shown)
    requires k < |kills|
    ensures Tried(kills + lives, k) == Tried(kills, k)
    ensures (kills + lives)[..k] == kills[..k] && (kills + lives)[k] == kills[k]
    ensures HeardUpTo(now, live, kills, k) ==> HeardUpTo(now, live, kills + lives, k)
  {
    hide Heard;
    assert (kills + lives)[..k + 1] == kills[..k + 1];
  }

  lemma {:induction false} HeardConcat(live: Shown, a: seq<Packet>, b: seq<Packet>)
    ensures Heard(live, a + b) == Heard(Heard(live, a), b)
  {
    if b == [] {
      assert a + b == a;
    } else {
      assert (a + b)[..|a + b| - 1] == a + b[..|b| - 1];
      HeardConcat(live, a, b[..|b| - 1]);
    }
  }

  lemma TriedAfter(kills: seq<Packet>, lives: seq<Packet>, l: nat, before: seq<Attempt>, now: seq<Attempt>)
    requires l <= |lives| && now == before + Tried(kills, |kills|) + Tried(lives, l)
    ensures now == before + Tried(kills + lives, |kills| + l)
  {
    var plan := kills + lives;
    assert Tried(plan, |kills| + l) == Tried(kills, |kills|) + Tried(lives, l);
  }

  lemma HeardAfter(kills: seq<Packet>, lives: seq<Packet>, l: nat, was: Shown, live: Shown, mid: Shown, now: Shown)
    requires l <= |lives| && HeardUpTo(mid, live, kills, |kills|) && HeardUpTo(now, mid, lives, l)
    ensures HeardUpTo(now, live, kills + lives, |kills| + l)
    ensures Heard(was, (kills + lives)[..|kills| + l]) == Heard(Heard(was, kills[..|kills|]), lives[..l])
  {
    hide Heard;
    var plan := kills + lives;
    assert kills[..|kills|] == kills;
    assert plan[..|kills| + l] == kills + lives[..l];
    HeardConcat(live, kills, lives[..l]);
    HeardConcat(was, kills, lives[..l]);
    if l < |lives| {
      assert plan[..|kills| + l + 1] == kills + lives[..l + 1];
      HeardConcat(live, kills, lives[..l + 1]);
    }
  }

  lemma KillsDone(gone: seq<string>, was: Shown, kills: seq<Packet>)
    requires (forall n :: n in gone ==> n in was) && kills == KillPackets(gone, was)
    ensures Heard(was, kills[..|kills|]) == was - (set n | n in gone)
  {
    HeardKills(gone, was, |gone|);
    assert gone[..|gone|] == gone;
  }

  /** Taking away what is not desired changes no decision about what is. */
  lemma KillsKeepDesired(gone: seq<string>, was: Shown, objects: seq<Object>, force: bool)
    requires Gone(gone, was, objects)
    ensures LivePackets(objects, was - (set n | n in gone), force) == LivePackets(objects, was, force)
  {
    hide LivePackets;
    RemainingSameLive(objects, was - (set n | n in gone), was, force);
  }

  lemma {:induction false} RemainingSameLive(objects: seq<Object>, kept: Shown, was: Shown, force: bool)
    requires forall n :: n in Names(objects) ==> (n in kept <==> n in was) && (n in kept ==> kept[n] == was[n])
    ensures LivePackets(objects, kept, force) == LivePackets(objects, was, force)
    decreases |objects|
  {
    if objects != [] {
      RemainingSameLive(objects[..|objects| - 1], kept, was, force);
    }
  }

  lemma NothingLive(was: Shown, force: bool)
    ensures LivePackets([], was, force) == []
  {
  }

  lemma Snoc(objects: seq<Object>, i: nat, was: Shown, force: bool)
    requires i < |objects|
    ensures var o := objects[i];
      && AsMap(objects[..i + 1]) == AsMap(objects[..i])[o.name := o.position]
      && LivePackets(objects[..i + 1], was, force) == LivePackets(objects[..i], was, force)
           + if force || !(o.name in was && was[o.name] == o.position) then [Live(o.name, o.position)] else []
  {
    assert objects[..i + 1][..i] == objects[..i] && objects[..i + 1][i] == objects[i];
  }

  lemma NotYetNamed(objects: seq<Object>, i: nat)
    requires i < |objects| && DistinctNames(objects)
    ensures objects[i].name !in Names(objects[..i])
  {
    hide Names;
    assert forall j :: 0 <= j < i ==> objects[..i][j] == objects[j];
  }

  lemma {:induction false} LivesExtend(objects: seq<Object>, i: nat, was: Shown, force: bool)
    requires i <= |objects|
    ensures LivePackets(objects[..i], was, force) <= LivePackets(objects, was, force)
    decreases |objects| - i
  {
    if i < |objects| {
      Snoc(objects, i, was, force);
      LivesExtend(objects, i + 1, was, force);
    } else {
      assert objects[..i] == objects;
    }
  }

  lemma HeardOne(live: Shown, packets: seq<Packet>, p: Packet)
    ensures Heard(live, packets + [p]) == Received(Heard(live, packets), p)
  {
    hide Received;
    assert (packets + [p])[..|packets|] == packets;
  }

  lemma PlusUpdate(was: Shown, more: Shown, name: string, position: Position)
    ensures (was + more)[name := position] == was + more[name := position]
    ensures name in was && was[name] == position && name !in more ==> was + more[name := position] == was + more
  {
  }

  /** Hearing the packets for the first objects is adding those objects. */
  lemma {:induction false} HeardLives(objects: seq<Object>, i: nat, was: Shown, force: bool)
    requires i <= |objects| && DistinctNames(objects)
    ensures Heard(was, LivePackets(objects[..i], was, force)) == Over(was, objects[..i])
  {
    hide AsMap, LivePackets, Names, DistinctNames, Heard;
    if i == 0 {
      NothingLive(was, force);
      assert objects[..0] == [];
      NoObjects(was);
    } else {
      HeardLives(objects, i - 1, was, force);
      var o, before := objects[i - 1], LivePackets(objects[..i - 1], was, force);
      Snoc(objects, i - 1, was, force);
      NotYetNamed(objects, i - 1);
      PlusUpdate(was, AsMap(objects[..i - 1]), o.name, o.position);
      if force || !(o.name in was && was[o.name] == o.position) {
        HeardOne(was, before, Live(o.name, o.position));
        AnnounceHeard(was + AsMap(objects[..i - 1]), o.name, o.position);
      } else {
        assert before + [] == before;
      }
    }
  }

  function Over(was: Shown, objects: seq<Object>): Shown { was + AsMap(objects) }

  lemma NoObjects(was: Shown)
    ensures Over(was, []) == was && Heard(was, []) == was
  {
  }

  lemma OverShows(was: Shown, objects: seq<Object>, name: string)
    requires name !in Names(objects)
    ensures SameAt(Over(was, objects), was, name)
  {
    hide AsMap, Names;
  }

  /** The decision about the next object, and the packet it puts next in the plan. */
  lemma LiveStep(objects: seq<Object>, i: nat, was: Shown, force: bool, lives: seq<Packet>, done: nat, now: Shown)
    requires i < |objects| && DistinctNames(objects) && lives == LivePackets(objects, was, force)
    requires done == |LivePackets(objects[..i], was, force)| <= |lives| && now == Heard(was, lives[..done])
    ensures var o := objects[i];
      var needed := force || !(o.name in now && now[o.name] == o.position);
      && |LivePackets(objects[..i + 1], was, force)| == done + (if needed then 1 else 0) <= |lives|
      && (needed ==> done < |lives| && lives[done] == Live(o.name, o.position))
  {
    hide AsMap, LivePackets, Names, DistinctNames, Heard, Over;
    Snoc(objects, i, was, force);
    NotYetNamed(objects, i);
    HeardLives(objects, i, was, force);
    LivesExtend(objects, i, was, force);
    LivesExtend(objects, i + 1, was, force);
    OverShows(was, objects[..i], objects[i].name);
    assert lives[..done] == LivePackets(objects[..i], was, force);
  }

  /** A plan carried out in full leaves exactly the desired objects announced. */
  lemma PlanReaches(gone: seq<string>, announced: Shown, objects: seq<Object>, force: bool)
    requires Gone(gone, announced, objects) && DistinctNames(objects)
    ensures Heard(announced, Plan(gone, announced, objects, force)) == AsMap(objects)
  {
    hide LivePackets, Heard, AsMap, DistinctNames, Names;
    var kills, lives := KillPackets(gone, announced), LivePackets(objects, announced, force);
    var kept := announced - (set n | n in gone);
    HeardConcat(announced, kills, lives);
    KillsDone(gone, announced, kills);
    assert kills[..|kills|] == kills;
    KillsKeepDesired(gone, announced, objects, force);
    HeardLives(objects, |objects|, kept, force);
    assert objects[..|objects|] == objects;
    assert kept.Keys <= Names(objects) == AsMap(objects).Keys;
  }

  // ---------------------------------------------------------------------------
  // What agreement means

  lemma ReceivedView(stale: Shown, announced: Shown, p: Packet)
    requires p.Kill? ==> p.name !in stale
    ensures Received(View(stale, announced), p) == View(stale, Received(announced, p))
  {
  }

  /** Every packet of a plan does to what the receivers show what it does to what is announced. */
  lemma {:induction false} HeardView(stale: Shown, announced: Shown, plan: seq<Packet>, k: nat)
    requires k <= |plan| && forall i :: 0 <= i < |plan| && plan[i].Kill? ==> plan[i].name !in stale
    ensures Heard(View(stale, announced), plan[..k]) == View(stale, Heard(announced, plan[..k]))
  {
    hide Received, View;
    if k > 0 {
      HeardView(stale, announced, plan, k - 1);
      HeardSnoc(View(stale, announced), plan, k - 1);
      HeardSnoc(announced, plan, k - 1);
      ReceivedView(stale, Heard(announced, plan[..k - 1]), plan[k - 1]);
    }
  }

  lemma {:induction false} LivesAreLive(objects: seq<Object>, was: Shown, force: bool)
    ensures forall i :: 0 <= i < |LivePackets(objects, was, force)| ==> LivePackets(objects, was, force)[i].Live?
  {
    if objects != [] {
      LivesAreLive(objects[..|objects| - 1], was, force);
    }
  }

  /** From receivers that show what is announced (and objects other connections left), after the first k
      packets of a sync receivers and announced objects agree again; if the next one fails they differ on
      at most its name; and the whole plan leaves exactly the desired objects in both, receivers showing nothing
      else exactly when every object others left is itself desired. */
  lemma SyncAgrees(stale: Shown, announced: Shown, objects: seq<Object>, force: bool, gone: seq<string>, k: nat,
                   live: Shown)
    requires stale.Keys !! announced.Keys && Gone(gone, announced, objects) && DistinctNames(objects)
    requires k <= |Plan(gone, announced, objects, force)|
    requires HeardUpTo(live, View(stale, announced), Plan(gone, announced, objects, force), k)
    ensures var plan := Plan(gone, announced, objects, force);
      var now := Heard(announced, plan[..k]);
      && (k == |plan| ==> now == AsMap(objects) && live == View(stale, AsMap(objects)))
      && (k < |plan| ==> AgreeExcept(live, View(stale, now), plan[k].name))
      && (k == |plan| ==> (live == AsMap(objects) <==> stale.Keys <= Names(objects)))
  {
    hide Heard, View, LivePackets, AsMap, DistinctNames, AgreeExcept;
    ReceiversMatchExactly(stale, objects);
    var plan := Plan(gone, announced, objects, force);
    LivesAreLive(objects, announced, force);
    HeardView(stale, announced, plan, k);
    if k == |plan| {
      assert plan[..k] == plan;
      PlanReaches(gone, announced, objects, force);
    } else {
      HeardSnoc(View(stale, announced), plan, k);
      OneNameDiffers(View(stale, Heard(announced, plan[..k])), plan[k]);
    }
  }

  lemma OneNameDiffers(live: Shown, p: Packet)
    ensures AgreeExcept(live, live, p.name) && AgreeExcept(Received(live, p), live, p.name)
  {
  }

  /** After a stop only names whose kill failed can remain of what this connection announced. */
  lemma StopLeaves(stale: Shown, announced: Shown, now: Shown, missed: set<string>)
    requires stale.Keys !! announced.Keys && Killed(now, View(stale, announced), announced.Keys, missed)
    ensures forall n :: n !in missed ==> SameAt(now, stale, n)
    ensures missed == {} ==> now == stale
  {
    forall n: string | n !in missed
      ensures SameAt(now, stale, n)
    {
      assert n !in announced ==> SameAt(now, View(stale, announced), n);
    }
    if missed == {} {
      SameEverywhere(now, stale);
    }
  }

  lemma SameEverywhere(live: Shown, stale: Shown)
    requires forall n: string :: SameAt(live, stale, n)
    ensures live == stale
  {
    forall n: string
      ensures (n in live <==> n in stale) && (n in live ==> live[n] == stale[n])
    {
      assert SameAt(live, stale, n);
    }
  }

  lemma {:induction false} AsMapShows(objects: seq<Object>)
    requires DistinctNames(objects)
    ensures forall i :: 0 <= i < |objects| ==>
      objects[i].name in AsMap(objects) && AsMap(objects)[objects[i].name] == objects[i].position
    decreases |objects|
  {
    hide Names;
    if objects != [] {
      var init, last := objects[..|objects| - 1], objects[|objects| - 1];
      AsMapShows(init);
      forall i | 0 <= i < |init|
        ensures objects[i].name in AsMap(objects) && AsMap(objects)[objects[i].name] == objects[i].position
      {
        assert init[i] == objects[i] && objects[i].name != last.name;
      }
    }
  }

  predicate DistinctPosts(objects: seq<Object>)
  {
    forall i, j :: 0 <= i < j < |objects| ==> objects[i].postId != objects[j].postId
  }

  /** The index by post is the inverse of the desired names: it sends each post to its own object. */
  lemma {:induction false} ByPostInverts(objects: seq<Object>)
    requires DistinctPosts(objects)
    ensures forall i :: 0 <= i < |objects| ==>
      objects[i].postId in ByPost(objects) && ByPost(objects)[objects[i].postId] == objects[i].name
    ensures forall p :: p in ByPost(objects) ==> exists i :: 0 <= i < |objects| && objects[i].postId == p
    decreases |objects|
  {
    if objects != [] {
      var init := objects[..|objects| - 1];
      ByPostInverts(init);
      assert forall i :: 0 <= i < |init| ==> init[i] == objects[i];
    }
  }

  /** After a successful sync the receivers show exactly the desired objects if and only if every live
      object this connection did not announce is itself desired. */
  lemma ReceiversMatchExactly(stale: Shown, objects: seq<Object>)
    ensures View(stale, AsMap(objects)) == AsMap(objects) <==> stale.Keys <= Names(objects)
  {
    var m := AsMap(objects);
    assert (stale + m).Keys == stale.Keys + m.Keys;
  }

  /** With nothing changed since the last sync, an unforced sync sends no object at all. */
  lemma {:induction false} NothingChangedNothingSent(objects: seq<Object>, announced: Shown)
    requires DistinctNames(objects) && forall i :: 0 <= i < |objects| ==>
      objects[i].name in announced && announced[objects[i].name] == objects[i].position
    ensures LivePackets(objects, announced, false) == []
    ensures |LivePackets(objects, announced, true)| == |objects|
    decreases |objects|
  {
    if objects != [] {
      NothingChangedNothingSent(objects[..|objects| - 1], announced);
    }
  }
}
