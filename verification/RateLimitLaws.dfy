/** Exactly which requests the limiter admits: those that keep every window within
    capacity + rate x length. Stated over whole runs with many clients and with the sweep. */
module RateLimitLaws {
  import opened RateLimit

  function Answers(limits: Limits, reqs: seq<Request>): (r: seq<bool>)
    ensures |r| == |reqs|
  {
    seq(|reqs|, i requires 0 <= i < |reqs| => Answer(limits, reqs[..i + 1]))
  }

  function FullAnswers(limits: Limits, reqs: seq<Request>): (r: seq<bool>)
    ensures |r| == |reqs|
  {
    seq(|reqs|, i requires 0 <= i < |reqs| => FullAnswer(limits, reqs[..i + 1]))
  }

  lemma SweepIsInvisible(limits: Limits, reqs: seq<Request>)
    requires Sensible(limits) && (forall route: string :: RefillsWithinTtl(limits(route))) && InOrder(reqs)
    ensures Answers(limits, reqs) == FullAnswers(limits, reqs)
  {
    hide Sensible, RefillsWithinTtl, Answer, FullAnswer;
    forall i | 0 <= i < |reqs|
      ensures Answers(limits, reqs)[i] == FullAnswers(limits, reqs)[i]
    {
      var prefix := reqs[..i + 1];
      assert InOrder(prefix);
      TablesAgree(limits, prefix);
    }
  }

  /** How many of the client's requests at positions j..n were granted. */
  function Granted(reqs: seq<Request>, answers: seq<bool>, k: Client, j: nat, n: nat): (c: nat)
    requires n <= |reqs| == |answers|
  {
    if n <= j then 0
    else Granted(reqs, answers, k, j, n - 1) + if reqs[n - 1].client == k && answers[n - 1] then 1 else 0
  }

  /** What the windows starting at request j leave for request n. */
  function Room(limit: Limit, reqs: seq<Request>, answers: seq<bool>, k: Client, j: nat, n: nat, now: real): real
    requires j < |reqs| && n <= |reqs| == |answers|
  {
    limit.capacity + Gain(now - reqs[j].at, limit.rate) - Granted(reqs, answers, k, j, n) as real
  }

  /** Granting request n keeps every window that starts at an earlier request of its client, or at
      itself, within capacity + rate x length. */
  ghost predicate HasRoom(limits: Limits, reqs: seq<Request>, answers: seq<bool>, n: nat)
    requires n < |reqs| == |answers|
  {
    var k := reqs[n].client;
    forall j: nat | j <= n && reqs[j].client == k ::
      Room(LimitOf(limits, k), reqs, answers, k, j, n, reqs[n].at) >= 1.0
  }

  // ---------------------------------------------------------------------------
  // The bucket holds the least room

  ghost predicate LeastRoom(level: real, limit: Limit, reqs: seq<Request>, answers: seq<bool>, k: Client, n: nat,
                            now: real)
    requires n <= |reqs| == |answers|
  {
    && (forall j: nat | j < n && reqs[j].client == k :: level <= Room(limit, reqs, answers, k, j, n, now))
    && (exists j: nat | j < n && reqs[j].client == k :: level == Room(limit, reqs, answers, k, j, n, now))
  }

  /** The bucket table after n requests, read as windows. */
  ghost predicate Explains(table: Buckets, limits: Limits, reqs: seq<Request>, answers: seq<bool>, k: Client, n: nat)
    requires n <= |reqs| == |answers|
  {
    if k in table then LeastRoom(table[k].tokens, LimitOf(limits, k), reqs, answers, k, n, table[k].last)
    else forall j: nat | j < n :: reqs[j].client != k
  }

  lemma RoomLater(limit: Limit, reqs: seq<Request>, answers: seq<bool>, k: Client, j: nat, n: nat, last: real,
                  now: real)
    requires j < |reqs| && n <= |reqs| == |answers|
    ensures Room(limit, reqs, answers, k, j, n, now)
         == Room(limit, reqs, answers, k, j, n, last) + Gain(now - last, limit.rate)
  {
    hide Gain;
    GainAdds(now - last, last - reqs[j].at, limit.rate);
    assert now - last + (last - reqs[j].at) == now - reqs[j].at;
  }

  /** At a request of the client the level is the least room over the windows that end there. */
  lemma LevelIsLeastRoom(table: Buckets, limits: Limits, reqs: seq<Request>, answers: seq<bool>, n: nat)
    requires n < |reqs| == |answers| && Explains(table, limits, reqs, answers, reqs[n].client, n)
    ensures var k := reqs[n].client; var limit := LimitOf(limits, k);
      && (forall j: nat | j <= n && reqs[j].client == k ::
            Level(table, k, limit, reqs[n].at) <= Room(limit, reqs, answers, k, j, n, reqs[n].at))
      && (exists j: nat | j <= n && reqs[j].client == k ::
            Level(table, k, limit, reqs[n].at) == Room(limit, reqs, answers, k, j, n, reqs[n].at))
  {
    hide Gain, LimitOf;
    var k := reqs[n].client;
    var limit := LimitOf(limits, k);
    var now := reqs[n].at;
    var level := Level(table, k, limit, now);
    GainZero(limit.rate);
    assert Room(limit, reqs, answers, k, n, n, now) == limit.capacity;
    if k in table {
      var last := table[k].last;
      forall j: nat | j < n && reqs[j].client == k
        ensures level <= Room(limit, reqs, answers, k, j, n, now)
      {
        RoomLater(limit, reqs, answers, k, j, n, last, now);
      }
      var w: nat :| w < n && reqs[w].client == k && table[k].tokens == Room(limit, reqs, answers, k, w, n, last);
      RoomLater(limit, reqs, answers, k, w, n, last, now);
      assert level == Room(limit, reqs, answers, k, n, n, now) || level == Room(limit, reqs, answers, k, w, n, now);
    }
  }

  lemma GrantedGrows(reqs: seq<Request>, answers: seq<bool>, k: Client, j: nat, n: nat)
    requires j <= n < |reqs| == |answers|
    ensures Granted(reqs, answers, k, j, n + 1)
         == Granted(reqs, answers, k, j, n) + if reqs[n].client == k && answers[n] then 1 else 0
  {
  }

  lemma ExplainsOwn(table: Buckets, limits: Limits, reqs: seq<Request>, answers: seq<bool>, n: nat)
    requires n < |reqs| == |answers| && Explains(table, limits, reqs, answers, reqs[n].client, n)
    requires var k := reqs[n].client; answers[n] == (Level(table, k, LimitOf(limits, k), reqs[n].at) >= 1.0)
    ensures var k := reqs[n].client;
      Explains(Take(table, k, LimitOf(limits, k), reqs[n].at), limits, reqs, answers, k, n + 1)
  {
    hide Gain, LimitOf, Level, Granted;
    var k := reqs[n].client;
    var limit := LimitOf(limits, k);
    var now := reqs[n].at;
    LevelIsLeastRoom(table, limits, reqs, answers, n);
    var level := Level(table, k, limit, now);
    var after := Take(table, k, limit, now);
    forall j: nat | j < n + 1 && reqs[j].client == k
      ensures after[k].tokens <= Room(limit, reqs, answers, k, j, n + 1, now)
    {
      GrantedGrows(reqs, answers, k, j, n);
    }
    var w: nat :| w <= n && reqs[w].client == k && level == Room(limit, reqs, answers, k, w, n, now);
    GrantedGrows(reqs, answers, k, w, n);
    assert after[k].tokens == Room(limit, reqs, answers, k, w, n + 1, now);
  }

  lemma ExplainsOther(table: Buckets, table': Buckets, limits: Limits, reqs: seq<Request>, answers: seq<bool>,
                      k: Client, n: nat)
    requires n < |reqs| == |answers| && Explains(table, limits, reqs, answers, k, n) && reqs[n].client != k
    requires (k in table <==> k in table') && (k in table ==> table'[k] == table[k])
    ensures Explains(table', limits, reqs, answers, k, n + 1)
  {
    hide Gain, LimitOf, Granted;
    if k in table {
      var limit := LimitOf(limits, k);
      var last := table[k].last;
      forall j: nat | j < n + 1 && reqs[j].client == k
        ensures Room(limit, reqs, answers, k, j, n + 1, last) == Room(limit, reqs, answers, k, j, n, last)
      {
        GrantedGrows(reqs, answers, k, j, n);
      }
      var w: nat :| w < n && reqs[w].client == k && table[k].tokens == Room(limit, reqs, answers, k, w, n, last);
      assert table[k].tokens == Room(limit, reqs, answers, k, w, n + 1, last);
    }
  }

  lemma {:induction false} FullTableExplained(limits: Limits, reqs: seq<Request>, k: Client, n: nat)
    requires n <= |reqs|
    ensures Explains(FullTable(limits, reqs[..n]), limits, reqs, FullAnswers(limits, reqs), k, n)
    decreases n
  {
    hide Explains, Take, Level;
    var answers := FullAnswers(limits, reqs);
    if n == 0 {
      NothingYet(limits, reqs, answers, k);
    } else {
      FullTableExplained(limits, reqs, k, n - 1);
      var prefix := reqs[..n];
      assert prefix[..n - 1] == reqs[..n - 1] && prefix[n - 1] == reqs[n - 1];
      var before := FullTable(limits, reqs[..n - 1]);
      var own := reqs[n - 1].client;
      if own == k {
        ExplainsOwn(before, limits, reqs, answers, n - 1);
      } else {
        TakeLeavesOthers(before, own, LimitOf(limits, own), reqs[n - 1].at, k);
        ExplainsOther(before, FullTable(limits, prefix), limits, reqs, answers, k, n - 1);
      }
    }
  }

  lemma NothingYet(limits: Limits, reqs: seq<Request>, answers: seq<bool>, k: Client)
    requires |reqs| == |answers|
    ensures Explains(map[], limits, reqs, answers, k, 0)
  {
  }

  lemma TakeLeavesOthers(table: Buckets, own: Client, limit: Limit, now: real, k: Client)
    requires k != own
    ensures var t := Take(table, own, limit, now); (k in t <==> k in table) && (k in t ==> t[k] == table[k])
  {
  }

  lemma FullAdmissionExact(limits: Limits, reqs: seq<Request>, n: nat)
    requires n < |reqs|
    ensures FullAnswers(limits, reqs)[n] <==> HasRoom(limits, reqs, FullAnswers(limits, reqs), n)
  {
    hide Room, Level, LimitOf, Explains;
    var answers := FullAnswers(limits, reqs);
    var k := reqs[n].client;
    FullTableExplained(limits, reqs, k, n);
    LevelIsLeastRoom(FullTable(limits, reqs[..n]), limits, reqs, answers, n);
    assert reqs[..n + 1][..n] == reqs[..n];
  }

  /** Exact admission. In any run of any clients, with the sweep at work, a request is granted if and
      only if granting it keeps the client's grants in every window ending now, and starting at one
      of its requests, within capacity + rate x length. */
  lemma AdmissionExact(limits: Limits, reqs: seq<Request>, n: nat)
    requires Sensible(limits) && (forall route: string :: RefillsWithinTtl(limits(route))) && InOrder(reqs)
    requires n < |reqs|
    ensures Answers(limits, reqs)[n] <==> HasRoom(limits, reqs, Answers(limits, reqs), n)
  {
    SweepIsInvisible(limits, reqs);
    FullAdmissionExact(limits, reqs, n);
  }

  // ---------------------------------------------------------------------------
  // Consequences

  /** Grants to a client among the first n requests that fall in the time window [s, t]. */
  function GrantedBetween(reqs: seq<Request>, answers: seq<bool>, k: Client, s: real, t: real, n: nat): (c: nat)
    requires n <= |reqs| == |answers|
  {
    if n == 0 then 0
    else
      var r := reqs[n - 1];
      GrantedBetween(reqs, answers, k, s, t, n - 1)
      + if r.client == k && answers[n - 1] && s <= r.at <= t then 1 else 0
  }

  /** Grants in a window all lie from its first request on. */
  lemma {:induction false} BetweenIsFrom(reqs: seq<Request>, answers: seq<bool>, k: Client, s: real, t: real, j: nat,
                                        n: nat)
    requires n <= |reqs| == |answers| && j <= n && forall i | 0 <= i < j && reqs[i].client == k :: reqs[i].at < s
    ensures GrantedBetween(reqs, answers, k, s, t, n) <= Granted(reqs, answers, k, j, n)
    decreases n
  {
    if n == j {
      NoneBefore(reqs, answers, k, s, t, n);
    } else {
      BetweenIsFrom(reqs, answers, k, s, t, j, n - 1);
    }
  }

  lemma {:induction false} NoneBefore(reqs: seq<Request>, answers: seq<bool>, k: Client, s: real, t: real, n: nat)
    requires n <= |reqs| == |answers| && forall i | 0 <= i < n && reqs[i].client == k :: reqs[i].at < s
    ensures GrantedBetween(reqs, answers, k, s, t, n) == 0
  {
    if n > 0 {
      NoneBefore(reqs, answers, k, s, t, n - 1);
    }
  }

  /** The client's first request at or after s, up to n. */
  lemma {:induction false} FirstFrom(reqs: seq<Request>, k: Client, s: real, n: nat) returns (j: nat)
    requires n < |reqs| && reqs[n].client == k && s <= reqs[n].at
    ensures j <= n && reqs[j].client == k && s <= reqs[j].at
    ensures forall i | 0 <= i < j && reqs[i].client == k :: reqs[i].at < s
  {
    j := 0;
    while !(reqs[j].client == k && s <= reqs[j].at)
      invariant j <= n && forall i | 0 <= i < j && reqs[i].client == k :: reqs[i].at < s
      decreases n - j
    {
      j := j + 1;
    }
  }

  ghost predicate Exact(limits: Limits, reqs: seq<Request>, answers: seq<bool>)
  {
    |reqs| == |answers| && forall n: nat | n < |reqs| :: answers[n] <==> HasRoom(limits, reqs, answers, n)
  }

  lemma GainGrows(a: real, b: real, rate: real)
    requires a <= b && rate >= 0.0
    ensures Gain(a, rate) <= Gain(b, rate)
  {
    hide Gain;
    GainAdds(b - a, a, rate);
    GainNonNegative(b - a, rate);
    assert b - a + a == b;
  }

  lemma {:induction false} WindowBoundUpTo(limits: Limits, reqs: seq<Request>, answers: seq<bool>, k: Client, s: real,
                                          t: real, n: nat)
    requires Sensible(limits) && Exact(limits, reqs, answers) && s <= t && n <= |reqs|
    ensures var limit := LimitOf(limits, k);
      GrantedBetween(reqs, answers, k, s, t, n) as real <= limit.capacity + Gain(t - s, limit.rate)
    decreases n
  {
    hide Gain, HasRoom;
    var limit := LimitOf(limits, k);
    assert limit == limits(k.0);
    if n == 0 {
      GainNonNegative(t - s, limit.rate);
    } else {
      WindowBoundUpTo(limits, reqs, answers, k, s, t, n - 1);
      var r := reqs[n - 1];
      if r.client == k && answers[n - 1] && s <= r.at <= t {
        var j := FirstFrom(reqs, k, s, n - 1);
        BetweenIsFrom(reqs, answers, k, s, t, j, n - 1);
        RoomOf(limits, reqs, answers, n - 1, j);
        GainGrows(r.at - reqs[j].at, t - s, limit.rate);
      }
    }
  }

  lemma RoomOf(limits: Limits, reqs: seq<Request>, answers: seq<bool>, n: nat, j: nat)
    requires Exact(limits, reqs, answers) && j <= n < |reqs| && answers[n] && reqs[j].client == reqs[n].client
    ensures var k := reqs[n].client; var limit := LimitOf(limits, k);
      Granted(reqs, answers, k, j, n) as real + 1.0 <= limit.capacity + Gain(reqs[n].at - reqs[j].at, limit.rate)
  {
    hide Gain, LimitOf, Granted;
    assert HasRoom(limits, reqs, answers, n);
  }

  lemma RunIsExact(limits: Limits, reqs: seq<Request>)
    requires Sensible(limits) && (forall route: string :: RefillsWithinTtl(limits(route))) && InOrder(reqs)
    ensures Exact(limits, reqs, Answers(limits, reqs))
  {
    hide HasRoom, Sensible, RefillsWithinTtl;
    forall n: nat | n < |reqs|
      ensures Answers(limits, reqs)[n] <==> HasRoom(limits, reqs, Answers(limits, reqs), n)
    {
      AdmissionExact(limits, reqs, n);
    }
  }

  /** In any run, the requests granted to one client in any time window number at most
      capacity + rate x length. */
  lemma WindowBound(limits: Limits, reqs: seq<Request>, k: Client, s: real, t: real)
    requires Sensible(limits) && (forall route: string :: RefillsWithinTtl(limits(route))) && InOrder(reqs) && s <= t
    ensures var limit := LimitOf(limits, k);
      GrantedBetween(reqs, Answers(limits, reqs), k, s, t, |reqs|) as real <= limit.capacity + Gain(t - s, limit.rate)
  {
    RunIsExact(limits, reqs);
    WindowBoundUpTo(limits, reqs, Answers(limits, reqs), k, s, t, |reqs|);
  }

  /** The client leaves at least 1/rate between any two of its requests. */
  ghost predicate SpacedOut(limits: Limits, reqs: seq<Request>, k: Client)
  {
    forall i, j | 0 <= i < j < |reqs| && reqs[i].client == k && reqs[j].client == k ::
      Gain(reqs[j].at - reqs[i].at, LimitOf(limits, k).rate) >= 1.0
  }

  /** Grants from request j to any later moment fit in the rate alone. */
  lemma {:induction false} SpacedGrants(limits: Limits, reqs: seq<Request>, answers: seq<bool>, k: Client, j: nat,
                                       n: nat, m: nat)
    requires |reqs| == |answers| && j <= n <= m < |reqs| && reqs[j].client == k && reqs[m].client == k
    requires SpacedOut(limits, reqs, k)
    ensures Granted(reqs, answers, k, j, n) as real <= Gain(reqs[m].at - reqs[j].at, LimitOf(limits, k).rate)
    decreases n
  {
    hide Gain;
    var rate := LimitOf(limits, k).rate;
    if n == j {
      GainZero(rate);
      assert m == j || Gain(reqs[m].at - reqs[j].at, rate) >= 1.0;
    } else if reqs[n - 1].client == k {
      SpacedGrants(limits, reqs, answers, k, j, n - 1, n - 1);
      GainAdds(reqs[m].at - reqs[n - 1].at, reqs[n - 1].at - reqs[j].at, rate);
      assert reqs[m].at - reqs[n - 1].at + (reqs[n - 1].at - reqs[j].at) == reqs[m].at - reqs[j].at;
    } else {
      SpacedGrants(limits, reqs, answers, k, j, n - 1, m);
    }
  }

  /** A client that keeps 1/rate between its requests is never refused. */
  lemma SpacedClientNeverRefused(limits: Limits, reqs: seq<Request>, k: Client, n: nat)
    requires Sensible(limits) && (forall route: string :: RefillsWithinTtl(limits(route))) && InOrder(reqs)
    requires LimitOf(limits, k).capacity >= 1.0 && SpacedOut(limits, reqs, k)
    requires n < |reqs| && reqs[n].client == k
    ensures Answers(limits, reqs)[n]
  {
    hide Gain, LimitOf, Granted, Sensible, RefillsWithinTtl;
    var answers := Answers(limits, reqs);
    AdmissionExact(limits, reqs, n);
    forall j: nat | j <= n && reqs[j].client == k
      ensures Room(LimitOf(limits, k), reqs, answers, k, j, n, reqs[n].at) >= 1.0
    {
      SpacedGrants(limits, reqs, answers, k, j, n, n);
    }
  }
}
