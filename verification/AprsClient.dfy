/** One connection of the APRS client, from its login to its end: when the event's objects are synced, and
    what the receivers show at every moment of it. */
module AprsClient {
  import opened PyText
  import opened ObjectNames
  import opened Beacon

  const BEACON_INTERVAL := 600

  /** One pass of the receive loop: whether the client is still wanted (before the read and after it),
      whether the server hung up, whether something changed, the time, and the event's posts then. */
  datatype Tick = Tick(running: bool, hungUp: bool, dirty: bool, wanted: bool, now: int, posts: seq<Post>, onAir: bool)

  /** The login and the state of the event right after it; an unverified login may not transmit. */
  datatype Login = Login(verified: bool, at: int, posts: seq<Post>, onAir: bool)

  /** Why a connection broke: a packet about an object did not go through, the server hung up, or a post
      could not be named. */
  datatype Cause = SendFailed(name: string) | HungUp | Unnameable

  /** A connection goes on, was stopped cleanly (`missed` are the names whose kill failed), or broke. */
  datatype End = Ongoing | Stopped(missed: set<string>) | Broke(cause: Cause)

  function DesiredNow(posts: seq<Post>, onAir: bool): Option<seq<Object>>
  {
    if onAir then Desired(posts) else Some([])
  }

  function DesiredNames(posts: seq<Post>, onAir: bool): set<string>
  {
    var d := DesiredNow(posts, onAir);
    if d.Some? then Names(d.value) else {}
  }

  /** When the next full broadcast is due, once the first n passes are over. */
  function NextBeacon(login: Login, ticks: seq<Tick>, n: nat): int
    requires n <= |ticks|
  {
    if n == 0 then login.at + BEACON_INTERVAL
    else if ticks[n - 1].now >= NextBeacon(login, ticks, n - 1) then ticks[n - 1].now + BEACON_INTERVAL
    else NextBeacon(login, ticks, n - 1)
  }

  /** A verified client syncs when something changed and when a broadcast is due. */
  predicate Syncs(login: Login, ticks: seq<Tick>, i: nat)
    requires i < |ticks|
  {
    login.verified && (ticks[i].dirty || ticks[i].now >= NextBeacon(login, ticks, i))
  }

  /** The names this connection has wanted on the air up to the end of the first n passes. */
  function EverDesired(login: Login, ticks: seq<Tick>, n: nat): set<string>
    requires n <= |ticks|
  {
    if n == 0 then
      if login.verified then DesiredNames(login.posts, login.onAir) else {}
    else if Syncs(login, ticks, n - 1) then
      EverDesired(login, ticks, n - 1) + DesiredNames(ticks[n - 1].posts, ticks[n - 1].onAir)
    else EverDesired(login, ticks, n - 1)
  }

  /** The objects of the last sync in the first n passes. */
  function LastDesired(login: Login, ticks: seq<Tick>, n: nat): Option<seq<Object>>
    requires n <= |ticks|
  {
    if n == 0 then
      if login.verified then DesiredNow(login.posts, login.onAir) else Some([])
    else if Syncs(login, ticks, n - 1) then DesiredNow(ticks[n - 1].posts, ticks[n - 1].onAir)
    else LastDesired(login, ticks, n - 1)
  }

  /** The receivers show what was live before the connection, less every name it has wanted on the air,
      and what it has announced. */
  ghost predicate Shows(live: Shown, before: Shown, ever: set<string>, announced: Shown)
  {
    announced.Keys <= ever && live == View(before - ever, announced)
  }

  /** Everything sent in between went through. */
  ghost predicate AllWent(before: seq<Attempt>, now: seq<Attempt>)
  {
    before <= now && forall i :: |before| <= i < |now| ==> now[i].ok
  }

  /** Everything sent in between went through but the last packet, which was about the name. */
  ghost predicate LastFailed(before: seq<Attempt>, now: seq<Attempt>, name: string)
  {
    && |before| < |now| && AllWent(before, now[..|now| - 1])
    && !now[|now| - 1].ok && now[|now| - 1].packet.name == name
  }

  function ObjectsOf(desired: Option<seq<Object>>): seq<Object> { if desired.Some? then desired.value else [] }

  /** A sync that went through: the kills and live packets it takes to get from `was` to the objects, with every
      object sent when forced. */
  ghost predicate SyncSent(sent: seq<Attempt>, was: Shown, objects: seq<Object>, force: bool)
  {
    exists gone :: Gone(gone, was, objects)
      && sent == Went(Plan(gone, was, objects, force), |Plan(gone, was, objects, force)|)
  }

  /** What one pass sent: a sync when something changed, then a full one when a broadcast is due. */
  ghost predicate PassSent(sent: seq<Attempt>, was: Shown, objects: seq<Object>, dirty: bool, due: bool)
  {
    if dirty && due then
      && |objects| <= |sent| && SyncSent(sent[..|sent| - |objects|], was, objects, false)
      && SyncSent(sent[|sent| - |objects|..], AsMap(objects), objects, true)
    else if dirty || due then SyncSent(sent, was, objects, due)
    else sent == []
  }

  predicate Due(login: Login, ticks: seq<Tick>, i: nat)
    requires i < |ticks|
  {
    login.verified && ticks[i].now >= NextBeacon(login, ticks, i)
  }

  /** Everything sent up to the last mark: the full sync after the login, up to the first mark, and from each
      mark to the next what that pass had to send. */
  ghost predicate PassesSent(login: Login, ticks: seq<Tick>, before: seq<Attempt>, now: seq<Attempt>, marks: seq<nat>)
  {
    && 0 < |marks| <= |ticks| + 1 && before <= now && |before| <= marks[0]
    && (forall i :: 0 <= i < |marks| ==> marks[i] <= |now|)
    && (forall i :: 0 < i < |marks| ==> marks[i - 1] <= marks[i])
    && (if login.verified
        then SyncSent(now[|before|..marks[0]], map[], ObjectsOf(DesiredNow(login.posts, login.onAir)), true)
        else marks[0] == |before|)
    && (forall i :: 0 < i < |marks| ==> SentBetween(login, ticks, now[marks[i - 1]..marks[i]], i - 1))
  }

  ghost predicate SentBetween(login: Login, ticks: seq<Tick>, sent: seq<Attempt>, i: nat)
    requires i < |ticks|
  {
    PassSent(sent, AsMap(ObjectsOf(LastDesired(login, ticks, i))),
             ObjectsOf(DesiredNow(ticks[i].posts, ticks[i].onAir)),
             login.verified && ticks[i].dirty, Due(login, ticks, i))
  }

  /** The passes went on: the client was wanted, the server there, and a change not a request to stop. */
  predicate WentOn(tick: Tick) { tick.running && !tick.hungUp && (tick.dirty ==> tick.wanted) }

  /** What a clean stop sent: one kill of each announced name, failing exactly for the missed. */
  ghost predicate StopSent(before: seq<Attempt>, now: seq<Attempt>, announced: Shown, missed: set<string>)
  {
    exists names :: Enumerates(names, announced.Keys) && KillsTried(before, now, names, announced, missed)
  }

  /** One sync; None when it went through, which it does unless a post cannot be named or a send fails. */
  method Sync(client: Client, air: Air, posts: seq<Post>, onAir: bool, force: bool, ghost before: Shown,
              ghost ever: set<string>) returns (broken: Option<Cause>)
    requires Shows(air.live, before, ever, client.announced)
    modifies client, air
    ensures broken.None? <==> DesiredNow(posts, onAir).Some? && AllWent(old(air.attempts), air.attempts)
    ensures old(air.attempts) <= air.attempts
    ensures broken.None? ==>
      && client.announced == AsMap(DesiredNow(posts, onAir).value)
      && client.objectsByPost == ByPost(DesiredNow(posts, onAir).value)
      && Shows(air.live, before, ever + DesiredNames(posts, onAir), client.announced)
      && SyncSent(air.attempts[|old(air.attempts)|..], old(client.announced), ObjectsOf(DesiredNow(posts, onAir)),
                  force)
    ensures broken != Some(HungUp) && (broken == Some(Unnameable) <==> DesiredNow(posts, onAir).None?)
    ensures broken == Some(Unnameable) ==>
      air.attempts == old(air.attempts) && Shows(air.live, before, ever, client.announced)
    ensures broken.Some? && broken.value.SendFailed? ==>
      && LastFailed(old(air.attempts), air.attempts, broken.value.name)
      && AgreeExcept(air.live, View(before - ever, client.announced), broken.value.name)
  {
    hide Desired, AsMap, Names, ByPost, LivePackets, View, AgreeExcept, Plan, Heard, HeardUpTo, DistinctNames;
    hide Tried, AllWent, LastFailed;
    ghost var was, live, attempts := client.announced, air.live, air.attempts;
    var r;
    ghost var gone, k;
    r, gone, k := client.SendObjects(air, posts, onAir, force);
    if r.Unnamed? {
      return Some(Unnameable);
    }
    ghost var plan := Plan(gone, was, DesiredNow(posts, onAir).value, force);
    SyncAgrees(before - ever, was, DesiredNow(posts, onAir).value, force, gone, k, air.live);
    TriedWent(attempts, plan, k);
    TriedAll(attempts, plan);
    match r {
      case Sent =>
        Rebased(before, ever, DesiredNow(posts, onAir).value);
        broken := None;
      case Broken(at) =>
        broken := Some(SendFailed(at));
    }
  }

  lemma TriedAll(before: seq<Attempt>, plan: seq<Packet>)
    ensures var now := before + Tried(plan, |plan|);
      before <= now && now[|before|..] == Went(plan, |plan|)
  {
  }

  lemma TriedWent(before: seq<Attempt>, plan: seq<Packet>, k: nat)
    requires k <= |plan|
    ensures k == |plan| <==> AllWent(before, before + Tried(plan, k))
    ensures k < |plan| ==> LastFailed(before, before + Tried(plan, k), plan[k].name)
  {
    var now := before + Tried(plan, k);
    if k < |plan| {
      assert !now[|before| + k].ok;
    }
  }

  /** What can be seen of the client and the network at a moment. */
  datatype Scene = Scene(live: Shown, attempts: seq<Attempt>, announced: Shown, byPost: map<int, string>)

  ghost function SceneOf(client: Client, air: Air): Scene
    reads client, air
  {
    Scene(air.live, air.attempts, client.announced, client.objectsByPost)
  }

  /** After n passes of a connection that began at `s0`: no send has failed, each pass sent what it had to, and
      the receivers show the objects of the last sync and what was live before and never desired. */
  ghost predicate Up(login: Login, ticks: seq<Tick>, n: nat, s0: Scene, s: Scene, ever: set<string>, marks: seq<nat>)
  {
    && n <= |ticks| && ever == EverDesired(login, ticks, n) && LastDesired(login, ticks, n).Some?
    && AllWent(s0.attempts, s.attempts) && |marks| == n + 1 && marks[n] == |s.attempts|
    && PassesSent(login, ticks, s0.attempts, s.attempts, marks)
    && s.announced == AsMap(LastDesired(login, ticks, n).value)
    && s.byPost == ByPost(LastDesired(login, ticks, n).value)
    && Shows(s.live, s0.live, ever, s.announced)
  }

  /** Asked to stop on pass n: a kill was sent for each announced object, and what is left is what was live before
      and never desired, but for names whose kill failed. */
  ghost predicate StoppedAt(login: Login, ticks: seq<Tick>, n: nat, s0: Scene, s: Scene, ever: set<string>,
                            marks: seq<nat>, missed: set<string>)
  {
    && n < |ticks| && (!ticks[n].running || (!ticks[n].hungUp && ticks[n].dirty && !ticks[n].wanted))
    && ever == EverDesired(login, ticks, n) && s.announced == map[] && s.byPost == map[]
    && |marks| == n + 1 && marks[n] <= |s.attempts|
    && StopSent(s.attempts[..marks[n]], s.attempts, AsMap(ObjectsOf(LastDesired(login, ticks, n))), missed)
    && (forall name :: name !in missed ==> SameAt(s.live, s0.live - ever, name))
    && (missed == {} ==> s.live == s0.live - ever)
    && (missed == {} <==> AllWent(s0.attempts, s.attempts))
  }

  /** Broken on a sync, of the login or of a pass. */
  ghost predicate SyncBroke(posts: seq<Post>, onAir: bool, s0: Scene, s: Scene, ever: set<string>, cause: Cause)
  {
    match cause
    case HungUp => false
    case Unnameable =>
      DesiredNow(posts, onAir).None? && AllWent(s0.attempts, s.attempts) && Shows(s.live, s0.live, ever, s.announced)
    case SendFailed(name) =>
      LastFailed(s0.attempts, s.attempts, name) && AgreeExcept(s.live, View(s0.live - ever, s.announced), name)
  }

  /** Broken on pass n: the server hung up and nothing else happened, or a sync that was due broke. */
  ghost predicate BrokeAt(login: Login, ticks: seq<Tick>, n: nat, s0: Scene, s: Scene, ever: set<string>,
                          marks: seq<nat>, cause: Cause)
  {
    && n < |ticks|
    && if cause.HungUp? then ticks[n].running && ticks[n].hungUp && Up(login, ticks, n, s0, s, ever, marks)
       else
         && WentOn(ticks[n]) && Syncs(login, ticks, n)
         && (ever == EverDesired(login, ticks, n) || ever == EverDesired(login, ticks, n + 1))
         && SyncBroke(ticks[n].posts, ticks[n].onAir, s0, s, ever, cause)
  }

  /** The connection as it runs over the given passes: `loggedIn` once the login's own sync is done, n the
      passes completed, `ever` the names wanted on the air so far, `marks` how many packets had been attempted
      after the login and after each completed pass. */
  method RunConnection(client: Client, air: Air, login: Login, ticks: seq<Tick>)
      returns (end: End, ghost loggedIn: bool, ghost n: nat, ghost ever: set<string>, ghost marks: seq<nat>)
    modifies client, air
    ensures n <= |ticks| && forall i :: 0 <= i < n ==> WentOn(ticks[i])
    ensures loggedIn ==> |marks| == n + 1 && PassesSent(login, ticks, old(air.attempts), air.attempts, marks)
    ensures !loggedIn ==>
      && login.verified && end.Broke? && ever == {}
      && SyncBroke(login.posts, login.onAir, old(SceneOf(client, air)), SceneOf(client, air), ever, end.cause)
    ensures loggedIn && end.Ongoing? ==>
      n == |ticks| && Up(login, ticks, n, old(SceneOf(client, air)), SceneOf(client, air), ever, marks)
    ensures loggedIn && end.Stopped? ==>
      StoppedAt(login, ticks, n, old(SceneOf(client, air)), SceneOf(client, air), ever, marks, end.missed)
    ensures loggedIn && end.Broke? ==>
      BrokeAt(login, ticks, n, old(SceneOf(client, air)), SceneOf(client, air), ever, marks, end.cause)
  {
    hide Desired, AsMap, Names, ByPost, LivePackets, View, SameAt, AgreeExcept, Shows, EverDesired, LastDesired;
    hide AllWent, LastFailed, DesiredNow, DesiredNames, SyncSent, PassesSent, PassSent, StopSent;
    hide StoppedAt, BrokeAt;
    ghost var s0 := SceneOf(client, air);
    loggedIn, n, ever, marks := false, 0, {}, [];
    client.Connected();
    NothingAnnounced(s0.live, s0.attempts);
    FirstSync(login, ticks);
    if login.verified {
      var broken := Sync(client, air, login.posts, login.onAir, true, s0.live, ever);
      if broken.Some? {
        return Broke(broken.value), loggedIn, n, ever, marks;
      }
      ever := ever + DesiredNames(login.posts, login.onAir);
    }
    loggedIn := true;
    marks := [|air.attempts|];
    LoginSent(login, ticks, s0.attempts, air.attempts);
    var nextBeacon := login.at + BEACON_INTERVAL;
    for i := 0 to |ticks|
      invariant loggedIn && n == i && nextBeacon == NextBeacon(login, ticks, i)
      invariant forall j :: 0 <= j < i ==> WentOn(ticks[j])
      invariant Up(login, ticks, i, s0, SceneOf(client, air), ever, marks)
    {
      var ended: Option<End>;
      ended, nextBeacon, ever, marks := RunPass(client, air, login, ticks, i, nextBeacon, s0, ever, marks);
      if ended.Some? {
        return ended.value, loggedIn, n, ever, marks;
      }
      n := n + 1;
    }
    end := Ongoing;
  }

  /** One pass; None when the connection goes on. */
  method RunPass(client: Client, air: Air, login: Login, ticks: seq<Tick>, i: nat, due: int, ghost s0: Scene,
                 ghost was: set<string>, ghost earlier: seq<nat>)
      returns (ended: Option<End>, nextBeacon: int, ghost ever: set<string>, ghost marks: seq<nat>)
    requires i < |ticks| && due == NextBeacon(login, ticks, i)
    requires Up(login, ticks, i, s0, SceneOf(client, air), was, earlier)
    modifies client, air
    ensures ended.None? ==>
      && WentOn(ticks[i]) && nextBeacon == NextBeacon(login, ticks, i + 1)
      && Up(login, ticks, i + 1, s0, SceneOf(client, air), ever, marks)
    ensures ended.Some? ==>
      && !ended.value.Ongoing? && marks == earlier && PassesSent(login, ticks, s0.attempts, air.attempts, marks)
      && (ended.value.Stopped? ==>
            StoppedAt(login, ticks, i, s0, SceneOf(client, air), ever, marks, ended.value.missed))
      && (ended.value.Broke? ==> BrokeAt(login, ticks, i, s0, SceneOf(client, air), ever, marks, ended.value.cause))
  {
    hide Desired, AsMap, Names, ByPost, LivePackets, View, SameAt, AgreeExcept, Shows, EverDesired, LastDesired;
    hide AllWent, LastFailed, DesiredNow, DesiredNames, SyncSent, PassesSent, PassSent, StopSent, SentBetween;
    var tick := ticks[i];
    ghost var a0, announced := air.attempts, client.announced;
    ended, nextBeacon, ever, marks := None, due, was, earlier;
    NextPass(login, ticks, i);
    UnverifiedIsSilent(login, ticks, i);
    if !tick.running || (!tick.hungUp && tick.dirty && !tick.wanted) {
      var end := CleanStop(client, air, login, s0.live, ever, s0.attempts);
      SentMore(login, ticks, s0.attempts, a0, air.attempts, marks);
      assert air.attempts[..marks[i]] == a0;
      return Some(end), nextBeacon, ever, marks;
    }
    if tick.hungUp {
      return Some(Broke(HungUp)), nextBeacon, ever, marks;
    }
    if tick.dirty && login.verified {
      var broken := Sync(client, air, tick.posts, tick.onAir, false, s0.live, ever);
      Chained(s0.attempts, a0, air.attempts);
      SentMore(login, ticks, s0.attempts, a0, air.attempts, marks);
      if broken.Some? {
        return Some(Broke(broken.value)), nextBeacon, ever, marks;
      }
      ever := ever + DesiredNames(tick.posts, tick.onAir);
    }
    ghost var a1 := air.attempts;
    if tick.now >= due {
      if login.verified {
        var broken := Sync(client, air, tick.posts, tick.onAir, true, s0.live, ever);
        Chained(s0.attempts, a1, air.attempts);
        SentMore(login, ticks, s0.attempts, a1, air.attempts, marks);
        if broken.Some? {
          return Some(Broke(broken.value)), nextBeacon, ever, marks;
        }
        ever := ever + DesiredNames(tick.posts, tick.onAir);
      }
      nextBeacon := tick.now + BEACON_INTERVAL;
    }
    PassDone(login, ticks, i, a0, a1, air.attempts, announced);
    PassMarked(login, ticks, s0.attempts, air.attempts, marks, i);
    marks := marks + [|air.attempts|];
  }

  /** A client that is not verified announces nothing. */
  lemma {:induction false} UnverifiedIsSilent(login: Login, ticks: seq<Tick>, n: nat)
    requires n <= |ticks|
    ensures !login.verified ==> LastDesired(login, ticks, n) == Some([])
    ensures AsMap([]) == map[] && ByPost([]) == map[]
  {
    if n > 0 {
      UnverifiedIsSilent(login, ticks, n - 1);
    }
  }

  lemma LoginSent(login: Login, ticks: seq<Tick>, before: seq<Attempt>, now: seq<Attempt>)
    requires before <= now
    requires if login.verified
             then SyncSent(now[|before|..], map[], ObjectsOf(DesiredNow(login.posts, login.onAir)), true)
             else now == before
    ensures PassesSent(login, ticks, before, now, [|now|])
  {
    hide SyncSent;
    assert now[|before|..|now|] == now[|before|..];
  }

  /** What was sent up to the marks stays so when more is sent. */
  lemma SentMore(login: Login, ticks: seq<Tick>, before: seq<Attempt>, now: seq<Attempt>, later: seq<Attempt>,
                 marks: seq<nat>)
    requires PassesSent(login, ticks, before, now, marks) && now <= later
    ensures PassesSent(login, ticks, before, later, marks)
  {
    hide SyncSent, SentBetween;
    assert later[|before|..marks[0]] == now[|before|..marks[0]];
    forall i | 0 < i < |marks|
      ensures SentBetween(login, ticks, later[marks[i - 1]..marks[i]], i - 1)
    {
      assert later[marks[i - 1]..marks[i]] == now[marks[i - 1]..marks[i]];
    }
  }

  lemma PassMarked(login: Login, ticks: seq<Tick>, before: seq<Attempt>, now: seq<Attempt>, marks: seq<nat>, i: nat)
    requires PassesSent(login, ticks, before, now, marks) && |marks| == i + 1 && i < |ticks|
    requires SentBetween(login, ticks, now[marks[i]..], i)
    ensures PassesSent(login, ticks, before, now, marks + [|now|])
  {
    hide SyncSent, SentBetween;
    assert now[marks[i]..|now|] == now[marks[i]..];
  }

  lemma PassDone(login: Login, ticks: seq<Tick>, i: nat, s0: seq<Attempt>, s1: seq<Attempt>, s2: seq<Attempt>,
                 was: Shown)
    requires i < |ticks| && s0 <= s1 <= s2 && was == AsMap(ObjectsOf(LastDesired(login, ticks, i)))
    requires var objects := ObjectsOf(DesiredNow(ticks[i].posts, ticks[i].onAir));
      var dirty, due := login.verified && ticks[i].dirty, Due(login, ticks, i);
      && (if dirty then SyncSent(s1[|s0|..], was, objects, false) else s1 == s0)
      && (if due then SyncSent(s2[|s1|..], if dirty then AsMap(objects) else was, objects, true) else s2 == s1)
    ensures SentBetween(login, ticks, s2[|s0|..], i)
  {
    hide SyncSent, AsMap, DesiredNow, LastDesired, NextBeacon;
    var objects := ObjectsOf(DesiredNow(ticks[i].posts, ticks[i].onAir));
    if login.verified && ticks[i].dirty && Due(login, ticks, i) {
      AgainInFull(s2[|s1|..], objects);
      assert s2[|s0|..][..|s1| - |s0|] == s1[|s0|..];
      assert s2[|s0|..][|s1| - |s0|..] == s2[|s1|..];
    } else if s1 == s0 {
      assert s2[|s0|..] == s2[|s1|..];
    }
  }

  lemma {:induction false} ForcedLives(objects: seq<Object>, was: Shown)
    ensures |LivePackets(objects, was, true)| == |objects|
    ensures forall i :: 0 <= i < |objects| ==>
      LivePackets(objects, was, true)[i] == Live(objects[i].name, objects[i].position)
  {
    if objects != [] {
      ForcedLives(objects[..|objects| - 1], was);
    }
  }

  /** The last packets sent were one for every object, in order, and went through. */
  ghost predicate BroadcastLast(sent: seq<Attempt>, objects: seq<Object>)
  {
    |objects| <= |sent| && forall j :: 0 <= j < |objects| ==>
      sent[|sent| - |objects| + j] == Attempt(Live(objects[j].name, objects[j].position), true)
  }

  lemma WentLast(sent: seq<Attempt>, kills: seq<Packet>, lives: seq<Packet>, i: nat)
    requires sent == Went(kills + lives, |kills + lives|) && i < |lives|
    ensures |sent| == |kills| + |lives| && sent[|sent| - |lives| + i] == Attempt(lives[i], true)
  {
    assert (kills + lives)[|kills| + i] == lives[i];
  }

  /** A forced sync ends with a packet for every object, in order. */
  lemma ForcedSendsAll(sent: seq<Attempt>, was: Shown, objects: seq<Object>)
    requires SyncSent(sent, was, objects, true)
    ensures BroadcastLast(sent, objects)
  {
    hide LivePackets, KillPackets, Names, AsMap, Went;
    var gone :| Gone(gone, was, objects)
      && sent == Went(Plan(gone, was, objects, true), |Plan(gone, was, objects, true)|);
    ForcedLives(objects, was);
    var kills, lives := KillPackets(gone, was), LivePackets(objects, was, true);
    if objects == [] {
      return;
    }
    forall i | 0 <= i < |objects|
      ensures |sent| == |kills| + |lives|
      ensures sent[|sent| - |objects| + i] == Attempt(Live(objects[i].name, objects[i].position), true)
    {
      WentLast(sent, kills, lives, i);
    }
    assert |sent| == |kills| + |lives| by { WentLast(sent, kills, lives, 0); }
  }

  lemma FirstIn(names: seq<string>, all: set<string>)
    requires Enumerates(names, all)
    ensures names != [] ==> names[0] in all
  {
  }

  /** With nothing to take off the air that is all it sends. */
  lemma AgainInFull(sent: seq<Attempt>, objects: seq<Object>)
    requires SyncSent(sent, AsMap(objects), objects, true)
    ensures |sent| == |objects|
  {
    hide LivePackets, Names;
    var gone :| Gone(gone, AsMap(objects), objects)
      && sent == Went(Plan(gone, AsMap(objects), objects, true), |Plan(gone, AsMap(objects), objects, true)|);
    ForcedLives(objects, AsMap(objects));
    assert AsMap(objects).Keys - Names(objects) == {};
    FirstIn(gone, AsMap(objects).Keys - Names(objects));
  }

  lemma LastOf(sent: seq<Attempt>, objects: seq<Object>)
    requires |objects| <= |sent| && BroadcastLast(sent[|sent| - |objects|..], objects)
    ensures BroadcastLast(sent, objects)
  {
    var last := sent[|sent| - |objects|..];
    forall j | 0 <= j < |objects|
      ensures sent[|sent| - |objects| + j] == Attempt(Live(objects[j].name, objects[j].position), true)
    {
      assert last[|last| - |objects| + j] == sent[|sent| - |objects| + j];
    }
  }

  lemma PassBroadcasts(sent: seq<Attempt>, was: Shown, objects: seq<Object>, dirty: bool)
    requires PassSent(sent, was, objects, dirty, true)
    ensures BroadcastLast(sent, objects)
  {
    hide SyncSent, BroadcastLast, AsMap;
    if dirty {
      ForcedSendsAll(sent[|sent| - |objects|..], AsMap(objects), objects);
      LastOf(sent, objects);
    } else {
      ForcedSendsAll(sent, was, objects);
    }
  }

  /** On every pass of a connection that comes when a broadcast is due, packets for all the objects then
      desired go through. */
  lemma DuePassBroadcasts(login: Login, ticks: seq<Tick>, before: seq<Attempt>, now: seq<Attempt>, marks: seq<nat>,
                          i: nat)
    requires PassesSent(login, ticks, before, now, marks) && i + 1 < |marks| && Due(login, ticks, i)
    ensures marks[i] <= marks[i + 1] <= |now|
    ensures BroadcastLast(now[marks[i]..marks[i + 1]], ObjectsOf(DesiredNow(ticks[i].posts, ticks[i].onAir)))
  {
    hide SyncSent, DesiredNow, LastDesired, NextBeacon, PassSent, BroadcastLast, AsMap;
    assert SentBetween(login, ticks, now[marks[i + 1 - 1]..marks[i + 1]], i + 1 - 1);
    PassBroadcasts(now[marks[i]..marks[i + 1]], AsMap(ObjectsOf(LastDesired(login, ticks, i))),
                   ObjectsOf(DesiredNow(ticks[i].posts, ticks[i].onAir)), login.verified && ticks[i].dirty);
  }

  lemma Chained(a: seq<Attempt>, b: seq<Attempt>, c: seq<Attempt>)
    requires AllWent(a, b)
    ensures AllWent(b, c) ==> AllWent(a, c)
    ensures forall name :: LastFailed(b, c, name) ==> LastFailed(a, c, name)
    ensures AllWent(a, a)
  {
  }

  /** Only a verified client has objects to take off the air. */
  method CleanStop(client: Client, air: Air, login: Login, ghost before: Shown, ghost ever: set<string>,
                   ghost attempts: seq<Attempt>) returns (end: End)
    requires Shows(air.live, before, ever, client.announced) && AllWent(attempts, air.attempts)
    requires !login.verified ==> client.announced == map[] && client.objectsByPost == map[]
    modifies client, air
    ensures end.Stopped? && client.announced == map[] && client.objectsByPost == map[]
    ensures end.missed == {} <==> AllWent(attempts, air.attempts)
    ensures end.missed <= old(client.announced).Keys
    ensures old(air.attempts) <= air.attempts
    ensures StopSent(old(air.attempts), air.attempts, old(client.announced), end.missed)
    ensures forall name :: name !in end.missed ==> SameAt(air.live, before - ever, name)
    ensures end.missed == {} ==> air.live == before - ever
  {
    hide View, SameAt, KillsTried, Killed, AllWent;
    if login.verified {
      ghost var was, sofar := client.announced, air.attempts;
      var missed;
      ghost var names;
      missed, names := client.KillAll(air);
      StopLeaves(before - ever, was, air.live, missed);
      KillsWent(attempts, sofar, air.attempts, names, was, missed);
      end := Stopped(missed);
    } else {
      NothingShown(before - ever);
      NothingKilled(air.attempts);
      end := Stopped({});
    }
  }

  lemma KillsWent(attempts: seq<Attempt>, before: seq<Attempt>, now: seq<Attempt>, names: seq<string>, announced: Shown,
                  missed: set<string>)
    requires AllWent(attempts, before) && Enumerates(names, announced.Keys) && missed <= announced.Keys
    requires KillsTried(before, now, names, announced, missed)
    ensures before <= now && (missed == {} <==> AllWent(attempts, now))
  {
    if n :| n in missed {
      var i :| 0 <= i < |names| && names[i] == n;
      assert !now[|before| + i].ok;
    } else {
      forall i | |before| <= i < |now|
        ensures now[i].ok
      {
        var j := i - |before|;
        assert now[|before| + j] == Attempt(Kill(names[j], announced[names[j]]), names[j] !in missed);
      }
    }
  }

  lemma NothingKilled(attempts: seq<Attempt>)
    ensures StopSent(attempts, attempts, map[], {})
  {
    var names: seq<string> := [];
    assert Enumerates(names, {}) && KillsTried(attempts, attempts, names, map[], {});
  }

  lemma NothingShown(live: Shown)
    ensures View(live, map[]) == live && forall name :: SameAt(live, live, name)
  {
  }

  lemma NothingAnnounced(live: Shown, attempts: seq<Attempt>)
    ensures Shows(live, live, {}, map[]) && AsMap([]) == map[] && ByPost([]) == map[] && AllWent(attempts, attempts)
  {
  }

  /** What a sync announces hides whatever was live before under the same names. */
  lemma Rebased(before: Shown, ever: set<string>, objects: seq<Object>)
    ensures View(before - ever, AsMap(objects)) == View(before - (ever + Names(objects)), AsMap(objects))
  {
  }

  lemma FirstSync(login: Login, ticks: seq<Tick>)
    ensures EverDesired(login, ticks, 0) == if login.verified then DesiredNames(login.posts, login.onAir) else {}
    ensures LastDesired(login, ticks, 0) == if login.verified then DesiredNow(login.posts, login.onAir) else Some([])
  {
  }

  lemma NextPass(login: Login, ticks: seq<Tick>, i: nat)
    requires i < |ticks|
    ensures EverDesired(login, ticks, i + 1) == EverDesired(login, ticks, i)
      + if Syncs(login, ticks, i) then DesiredNames(ticks[i].posts, ticks[i].onAir) else {}
    ensures LastDesired(login, ticks, i + 1) ==
      if Syncs(login, ticks, i) then DesiredNow(ticks[i].posts, ticks[i].onAir) else LastDesired(login, ticks, i)
  {
  }

  /** A full broadcast is due 600 seconds after the last one: no pass between the two came that late, and
      the last one was itself due. */
  lemma {:induction false} BroadcastIsNeverLate(login: Login, ticks: seq<Tick>, n: nat) returns (last: int)
    requires n <= |ticks|
    ensures -1 <= last < n
    ensures NextBeacon(login, ticks, n) == (if last < 0 then login.at else ticks[last].now) + BEACON_INTERVAL
    ensures last >= 0 ==> ticks[last].now >= NextBeacon(login, ticks, last)
    ensures forall i :: last < i < n ==> ticks[i].now < NextBeacon(login, ticks, n)
  {
    last := -1;
    if n > 0 {
      last := BroadcastIsNeverLate(login, ticks, n - 1);
      if ticks[n - 1].now >= NextBeacon(login, ticks, n - 1) {
        last := n - 1;
      }
    }
  }
}
