/** The sweep changes no answer exactly when every bucket refills within the TTL. */
module RateLimitSweep {
  import opened RateLimit
  import opened RateLimitLaws

  /** Distinct addresses: the i-th has i characters. */
  function Address(i: nat): (s: string)
    ensures |s| == i
  {
    seq(i, _ => '1')
  }

  function Burst(k: Client, at: real, m: nat): (r: seq<Request>)
    ensures |r| == m && forall i :: 0 <= i < m ==> r[i] == Request(k, at)
  {
    seq(m, _ => Request(k, at))
  }

  function Crowd(route: string, m: nat): (r: seq<Request>)
    ensures |r| == m && forall i :: 0 <= i < m ==> r[i] == Request((route, Address(i + 1)), 0.0)
  {
    seq(m, i requires 0 <= i => Request((route, Address(i + 1)), 0.0))
  }

  /** A route whose whole-number capacity does not refill within the TTL. */
  ghost predicate TooSlow(limits: Limits, route: string, c: nat)
  {
    Sensible(limits) && limits(route).capacity == c as real && 1 <= c && !RefillsWithinTtl(limits(route))
  }

  lemma TableSnoc(limits: Limits, reqs: seq<Request>, r: Request)
    ensures Table(limits, reqs + [r])
         == Take(Swept(Table(limits, reqs), r.at), r.client, LimitOf(limits, r.client), r.at)
    ensures Answer(limits, reqs + [r])
         == (Level(Swept(Table(limits, reqs), r.at), r.client, LimitOf(limits, r.client), r.at) >= 1.0)
  {
    assert (reqs + [r])[..|reqs + [r]| - 1] == reqs;
  }

  /** The bucket as it is when the m-th request of a burst arrives. */
  ghost predicate BurstReady(table: Buckets, t: Buckets, k: Client, at: real, c: nat, m: nat)
    requires m >= 1
  {
    && Swept(table, at) == (if m == 1 then t else t[k := Bucket(c as real - (m - 1) as real, at)])
    && k !in t
  }

  lemma BurstStep(limits: Limits, route: string, c: nat, table: Buckets, t: Buckets, k: Client, at: real, m: nat)
    requires TooSlow(limits, route, c) && k.0 == route && 1 <= m <= c && BurstReady(table, t, k, at, c, m)
    ensures Level(Swept(table, at), k, LimitOf(limits, k), at) >= 1.0
    ensures Take(Swept(table, at), k, LimitOf(limits, k), at) == t[k := Bucket(c as real - m as real, at)]
  {
    hide Swept, Gain, Sensible, RefillsWithinTtl;
    var limit := LimitOf(limits, k);
    FreshLevel(limit, at);
    GainZero(limit.rate);
    var kept := Swept(table, at);
    assert Level(kept, k, limit, at) == c as real - (m - 1) as real;
    assert kept[k := Bucket(c as real - m as real, at)] == t[k := Bucket(c as real - m as real, at)];
  }

  /** Up to c requests at one moment against a forgotten bucket are all granted. */
  lemma {:induction false} BurstGranted(limits: Limits, route: string, c: nat, prefix: seq<Request>, k: Client,
                                       at: real, m: nat)
    requires TooSlow(limits, route, c) && k.0 == route && m <= c
    requires var t := Swept(Table(limits, prefix), at); k !in t && |t| + 1 < MAX_BUCKETS
    ensures m > 0 ==>
      Table(limits, prefix + Burst(k, at, m))
      == Swept(Table(limits, prefix), at)[k := Bucket(c as real - m as real, at)]
    ensures forall i: nat | 1 <= i <= m :: Answer(limits, prefix + Burst(k, at, i))
    decreases m
  {
    hide Swept, TooSlow, Take, Level, Table, Answer;
    if m > 0 {
      var t := Swept(Table(limits, prefix), at);
      BurstGranted(limits, route, c, prefix, k, at, m - 1);
      var before := prefix + Burst(k, at, m - 1);
      assert prefix + Burst(k, at, m) == before + [Request(k, at)];
      TableSnoc(limits, before, Request(k, at));
      if m == 1 {
        assert before == prefix;
      } else {
        BurstFits(t, k, Bucket(c as real - (m - 1) as real, at), at);
      }
      BurstStep(limits, route, c, Table(limits, before), t, k, at, m);
      forall i: nat | 1 <= i <= m
        ensures Answer(limits, prefix + Burst(k, at, i))
      {
        assert i == m || i <= m - 1;
      }
    }
  }

  lemma BurstFits(t: Buckets, k: Client, b: Bucket, at: real)
    requires |t| + 1 < MAX_BUCKETS
    ensures Swept(t[k := b], at) == t[k := b]
  {
    assert t[k := b].Keys == t.Keys + {k};
    CardinalityPlusOne(t.Keys, k);
    SmallIsKept(t[k := b], at);
  }

  lemma SmallIsKept(t: Buckets, now: real)
    requires |t| < MAX_BUCKETS
    ensures Swept(t, now) == t
  {
  }

  ghost predicate AllAtZero(t: Buckets)
  {
    forall k :: k in t ==> t[k].last == 0.0
  }

  /** Everything touched at time zero survives any sweep at time zero. */
  lemma TakeAtZero(t: Buckets, k: Client, limit: Limit)
    requires AllAtZero(t)
    ensures AllAtZero(Take(Swept(t, 0.0), k, limit, 0.0))
    ensures Take(Swept(t, 0.0), k, limit, 0.0).Keys == t.Keys + {k}
  {
    hide Level;
    assert Swept(t, 0.0) == t;
  }

  lemma {:induction false} CrowdTable(limits: Limits, route: string, prefix: seq<Request>, m: nat)
    requires AllAtZero(Table(limits, prefix))
    ensures AllAtZero(Table(limits, prefix + Crowd(route, m)))
    ensures forall i: nat | 1 <= i <= m :: (route, Address(i)) in Table(limits, prefix + Crowd(route, m)).Keys
    decreases m
  {
    hide Table, Take, Swept, AllAtZero, Address;
    if m == 0 {
      assert prefix + Crowd(route, 0) == prefix;
    } else {
      CrowdTable(limits, route, prefix, m - 1);
      var before := prefix + Crowd(route, m - 1);
      var r := Request((route, Address(m)), 0.0);
      assert prefix + Crowd(route, m) == before + [r];
      TableSnoc(limits, before, r);
      TakeAtZero(Table(limits, before), r.client, LimitOf(limits, r.client));
    }
  }

  lemma {:induction false} ManyAddresses(route: string, m: nat, keys: set<Client>)
    requires forall i: nat | 1 <= i <= m :: (route, Address(i)) in keys
    ensures |keys| >= m
    decreases m
  {
    if m > 0 {
      var k := (route, Address(m));
      var fewer := keys - {k};
      forall i: nat | 1 <= i <= m - 1
        ensures (route, Address(i)) in fewer
      {
        assert |Address(i)| != |Address(m)|;
      }
      ManyAddresses(route, m - 1, fewer);
    }
  }

  /** A moment past the TTL at which the bucket is still not full again. */
  lemma LateMoment(limits: Limits, route: string, c: nat) returns (at: real)
    requires TooSlow(limits, route, c)
    ensures at > BUCKET_TTL_SEC && Gain(at, limits(route).rate) < c as real
  {
    var rate := limits(route).rate;
    if rate == 0.0 {
      at := BUCKET_TTL_SEC + 1.0;
    } else {
      var slack := c as real - Gain(BUCKET_TTL_SEC, rate);
      var more := slack / (2.0 * rate);
      assert more * rate == slack / 2.0;
      GainAdds(BUCKET_TTL_SEC, more, rate);
      at := BUCKET_TTL_SEC + more;
      assert more > 0.0 by { PositiveQuotient(slack, 2.0 * rate); }
    }
  }

  lemma PositiveQuotient(x: real, y: real)
    requires x > 0.0 && y > 0.0
    ensures x / y > 0.0
  {
    assert x / y * y == x;
  }

  function SlowRun(route: string, c: nat, at: real): seq<Request>
  {
    Burst((route, ""), 0.0, c) + Crowd(route, MAX_BUCKETS) + Burst((route, ""), at, c)
  }

  lemma SecondBurstGranted(limits: Limits, route: string, c: nat, at: real)
    requires TooSlow(limits, route, c) && at > BUCKET_TTL_SEC
    ensures var k := (route, ""); forall i: nat | 1 <= i <= c ::
      Answer(limits, Burst(k, 0.0, c) + Crowd(route, MAX_BUCKETS) + Burst(k, at, i))
  {
    hide Swept, Take, Table, Answer, TooSlow, AllAtZero;
    var k := (route, "");
    var filled := Burst(k, 0.0, c) + Crowd(route, MAX_BUCKETS);
    AfterFirstBurst(limits, route, c);
    CrowdTable(limits, route, Burst(k, 0.0, c), MAX_BUCKETS);
    ManyAddresses(route, MAX_BUCKETS, Table(limits, filled).Keys);
    AllForgotten(Table(limits, filled), at);
    BurstGranted(limits, route, c, filled, k, at, c);
  }

  lemma FirstBurstGranted(limits: Limits, route: string, c: nat)
    requires TooSlow(limits, route, c)
    ensures forall i: nat | 1 <= i <= c :: Answer(limits, Burst((route, ""), 0.0, i))
  {
    hide Swept, Take, Table, Answer, TooSlow;
    EmptyTable(limits);
    BurstGranted(limits, route, c, [], (route, ""), 0.0, c);
    forall i: nat | 1 <= i <= c
      ensures Answer(limits, Burst((route, ""), 0.0, i))
    {
      assert [] + Burst((route, ""), 0.0, i) == Burst((route, ""), 0.0, i);
    }
  }

  /** The limiter with its sweep grants both bursts in full. */
  lemma BothBurstsGranted(limits: Limits, route: string, c: nat, at: real)
    requires TooSlow(limits, route, c) && at > BUCKET_TTL_SEC
    ensures var reqs := SlowRun(route, c, at);
      && (forall i | 0 <= i < c :: Answers(limits, reqs)[i])
      && (forall i | c + MAX_BUCKETS <= i < |reqs| :: Answers(limits, reqs)[i])
  {
    hide Answer, TooSlow;
    var k := (route, "");
    var reqs := SlowRun(route, c, at);
    FirstBurstGranted(limits, route, c);
    forall i | 0 <= i < c
      ensures Answers(limits, reqs)[i]
    {
      assert reqs[..i + 1] == Burst(k, 0.0, i + 1);
    }
    SecondBurstGranted(limits, route, c, at);
    forall i | c + MAX_BUCKETS <= i < |reqs|
      ensures Answers(limits, reqs)[i]
    {
      var m := i - c - MAX_BUCKETS + 1;
      assert reqs[..i + 1] == Burst(k, 0.0, c) + Crowd(route, MAX_BUCKETS) + Burst(k, at, m);
    }
  }

  lemma EmptyTable(limits: Limits)
    ensures Table(limits, []) == map[] && Swept(map[], 0.0) == map[]
  {
  }

  lemma AfterFirstBurst(limits: Limits, route: string, c: nat)
    requires TooSlow(limits, route, c)
    ensures AllAtZero(Table(limits, Burst((route, ""), 0.0, c)))
  {
    hide Table, Take;
    EmptyTable(limits);
    BurstGranted(limits, route, c, [], (route, ""), 0.0, c);
    assert [] + Burst((route, ""), 0.0, c) == Burst((route, ""), 0.0, c);
  }

  lemma AllForgotten(t: Buckets, at: real)
    requires |t.Keys| >= MAX_BUCKETS && at > BUCKET_TTL_SEC && AllAtZero(t)
    ensures Swept(t, at) == map[]
  {
    assert |t| == |t.Keys|;
  }

  lemma {:induction false} CountGrants(reqs: seq<Request>, answers: seq<bool>, k: Client, at: real, p: nat, n: nat)
    requires p <= n <= |reqs| == |answers| && 0.0 <= at
    requires forall i | p <= i < n :: reqs[i].client == k && answers[i] && 0.0 <= reqs[i].at <= at
    ensures GrantedBetween(reqs, answers, k, 0.0, at, n) == GrantedBetween(reqs, answers, k, 0.0, at, p) + (n - p)
    decreases n
  {
    if n > p {
      CountGrants(reqs, answers, k, at, p, n - 1);
    }
  }

  lemma {:induction false} GrantsGrow(reqs: seq<Request>, answers: seq<bool>, k: Client, at: real, p: nat, n: nat)
    requires p <= n <= |reqs| == |answers|
    ensures GrantedBetween(reqs, answers, k, 0.0, at, p) <= GrantedBetween(reqs, answers, k, 0.0, at, n)
    decreases n
  {
    if n > p {
      GrantsGrow(reqs, answers, k, at, p, n - 1);
    }
  }

  lemma TwoFullBursts(limits: Limits, route: string, c: nat, at: real)
    requires TooSlow(limits, route, c) && at > BUCKET_TTL_SEC
    ensures var reqs := SlowRun(route, c, at);
      GrantedBetween(reqs, Answers(limits, reqs), (route, ""), 0.0, at, |reqs|) >= 2 * c
  {
    hide Answers, TooSlow, GrantedBetween;
    var k := (route, "");
    var reqs := SlowRun(route, c, at);
    var answers := Answers(limits, reqs);
    BothBurstsGranted(limits, route, c, at);
    CountGrants(reqs, answers, k, at, 0, c);
    GrantsGrow(reqs, answers, k, at, c, c + MAX_BUCKETS);
    CountGrants(reqs, answers, k, at, c + MAX_BUCKETS, |reqs|);
  }

  /** A slow route has a run on which the sweep changes an answer. */
  lemma SweepShows(limits: Limits, route: string, c: nat) returns (reqs: seq<Request>)
    requires TooSlow(limits, route, c)
    ensures InOrder(reqs) && Answers(limits, reqs) != FullAnswers(limits, reqs)
  {
    hide Answers, FullAnswers, Gain, GrantedBetween, Exact;
    var at := LateMoment(limits, route, c);
    reqs := SlowRun(route, c, at);
    TwoFullBursts(limits, route, c, at);
    if Answers(limits, reqs) == FullAnswers(limits, reqs) {
      FullRunIsExact(limits, reqs);
      WindowBoundUpTo(limits, reqs, Answers(limits, reqs), (route, ""), 0.0, at, |reqs|);
      assert false;
    }
  }

  lemma FullRunIsExact(limits: Limits, reqs: seq<Request>)
    ensures Exact(limits, reqs, FullAnswers(limits, reqs))
  {
    hide HasRoom, FullAnswers;
    forall n: nat | n < |reqs|
      ensures FullAnswers(limits, reqs)[n] <==> HasRoom(limits, reqs, FullAnswers(limits, reqs), n)
    {
      FullAdmissionExact(limits, reqs, n);
    }
  }

  ghost predicate WholeCapacities(limits: Limits)
  {
    && Sensible(limits)
    && forall route: string ::
      limits(route).capacity >= 1.0 && limits(route).capacity == limits(route).capacity.Floor as real
  }

  /** For routes with whole, positive capacities: the limiter answers every run as one that never
      forgets a bucket if and only if each route refills its capacity within the TTL. */
  lemma SweepInvisibleExactly(limits: Limits)
    requires WholeCapacities(limits)
    ensures (forall reqs: seq<Request> | InOrder(reqs) :: Answers(limits, reqs) == FullAnswers(limits, reqs))
       <==> (forall route: string :: RefillsWithinTtl(limits(route)))
  {
    hide Answers, FullAnswers, RefillsWithinTtl, InOrder;
    if forall route: string :: RefillsWithinTtl(limits(route)) {
      forall reqs: seq<Request> | InOrder(reqs)
        ensures Answers(limits, reqs) == FullAnswers(limits, reqs)
      {
        SweepIsInvisible(limits, reqs);
      }
    } else {
      var route: string :| !RefillsWithinTtl(limits(route));
      var c := limits(route).capacity.Floor;
      var reqs := SweepShows(limits, route, c);
    }
  }

  /** A slow route has a run on which more is granted than the windows allow. */
  lemma SlowRunIsNotExact(limits: Limits, route: string, c: nat) returns (reqs: seq<Request>)
    requires TooSlow(limits, route, c)
    ensures InOrder(reqs) && !Exact(limits, reqs, Answers(limits, reqs))
  {
    hide Answers, Gain, GrantedBetween, Exact;
    var at := LateMoment(limits, route, c);
    reqs := SlowRun(route, c, at);
    TwoFullBursts(limits, route, c, at);
    if Exact(limits, reqs, Answers(limits, reqs)) {
      WindowBoundUpTo(limits, reqs, Answers(limits, reqs), (route, ""), 0.0, at, |reqs|);
      assert false;
    }
  }

  /** For routes with whole, positive capacities: in every run every request is granted exactly when it
      keeps its client's windows within capacity + rate x length, if and only if each route refills its
      capacity within the TTL. */
  lemma AdmissionExactlyWhenRefilled(limits: Limits)
    requires WholeCapacities(limits)
    ensures (forall reqs: seq<Request> | InOrder(reqs) :: Exact(limits, reqs, Answers(limits, reqs)))
       <==> (forall route: string :: RefillsWithinTtl(limits(route)))
  {
    hide Answers, RefillsWithinTtl, InOrder, Exact;
    if forall route: string :: RefillsWithinTtl(limits(route)) {
      forall reqs: seq<Request> | InOrder(reqs)
        ensures Exact(limits, reqs, Answers(limits, reqs))
      {
        RunIsExact(limits, reqs);
      }
    } else {
      var route: string :| !RefillsWithinTtl(limits(route));
      var c := limits(route).capacity.Floor;
      var reqs := SlowRunIsNotExact(limits, route, c);
    }
  }
}
