/** The in-memory token-bucket limiter: lazy refill, one bucket per (route key, client ip), and an
    opportunistic sweep that forgets buckets idle for longer than the TTL once the table is full. */
module RateLimit {

  datatype Bucket = Bucket(tokens: real, last: real)

  /** Burst size and steady-state rate of one route. */
  datatype Limit = Limit(capacity: real, rate: real)

  type Client = (string, string)  // (route key, client ip)
  type Buckets = map<Client, Bucket>

  const MAX_BUCKETS := 10_000
  const BUCKET_TTL_SEC := 600.0

  function Min(a: real, b: real): real { if a <= b then a else b }

  function Swept(buckets: Buckets, now: real): Buckets
  {
    if |buckets| < MAX_BUCKETS then buckets
    else map k | k in buckets && !(buckets[k].last < now - BUCKET_TTL_SEC) :: buckets[k]
  }

  /** Tokens gained over a time span. */
  function Gain(elapsed: real, rate: real): real { elapsed * rate }

  lemma GainNonNegative(elapsed: real, rate: real)
    requires elapsed >= 0.0 && rate >= 0.0
    ensures Gain(elapsed, rate) >= 0.0
  {
  }

  lemma GainAdds(first: real, second: real, rate: real)
    ensures Gain(first + second, rate) == Gain(first, rate) + Gain(second, rate)
  {
  }

  lemma GainZero(rate: real)
    ensures Gain(0.0, rate) == 0.0
  {
  }

  /** The bucket's tokens at `now`, refilled at the limit's rate and capped at its capacity. */
  function Refilled(b: Bucket, limit: Limit, now: real): real
  {
    Min(limit.capacity, b.tokens + Gain(now - b.last, limit.rate))
  }

  /** Tokens in the client's bucket at `now`, before one is taken. */
  function Level(buckets: Buckets, k: Client, limit: Limit, now: real): real
  {
    Refilled(if k in buckets then buckets[k] else Bucket(limit.capacity, now), limit, now)
  }

  function Take(buckets: Buckets, k: Client, limit: Limit, now: real): Buckets
  {
    var level := Level(buckets, k, limit, now);
    buckets[k := Bucket(if level < 1.0 then level else level - 1.0, now)]
  }

  class Limiter {
    var buckets: Buckets

    constructor ()
      ensures buckets == map[]
    {
      buckets := map[];
    }

    method MaybeSweep(now: real)
      modifies this
      ensures buckets == Swept(old(buckets), now)
    {
      if |buckets| < MAX_BUCKETS {
        return;
      }
      var cutoff := now - BUCKET_TTL_SEC;
      var expired := set k | k in buckets && buckets[k].last < cutoff;
      ghost var all := buckets;
      while expired != {}
        invariant buckets.Keys <= all.Keys && expired <= buckets.Keys
        invariant forall k :: k in buckets ==> buckets[k] == all[k]
        invariant forall k :: k in all && all[k].last >= cutoff ==> k in buckets
        invariant forall k :: k in buckets && all[k].last < cutoff ==> k in expired
        invariant forall k :: k in expired ==> all[k].last < cutoff
        decreases |expired|
      {
        var k :| k in expired;
        buckets := buckets - {k};
        expired := expired - {k};
      }
    }

    /** True when a token was taken; False when the bucket was empty. */
    method Consume(now: real, key: string, ip: string, capacity: real, refillPerSec: real) returns (ok: bool)
      modifies this
      ensures var kept := Swept(old(buckets), now);
        && ok == (Level(kept, (key, ip), Limit(capacity, refillPerSec), now) >= 1.0)
        && buckets == Take(kept, (key, ip), Limit(capacity, refillPerSec), now)
    {
      hide Refilled;
      MaybeSweep(now);
      var bucket := if (key, ip) in buckets then buckets[(key, ip)] else Bucket(capacity, now);
      var tokens := Refilled(bucket, Limit(capacity, refillPerSec), now);
      if tokens < 1.0 {
        buckets := buckets[(key, ip) := Bucket(tokens, now)];
        return false;
      }
      buckets := buckets[(key, ip) := Bucket(tokens - 1.0, now)];
      return true;
    }
  }

  // ---------------------------------------------------------------------------
  // Runs

  datatype Request = Request(client: Client, at: real)

  type Limits = string -> Limit

  function LimitOf(limits: Limits, k: Client): Limit { limits(k.0) }

  /** The table after a run that started empty. */
  function Table(limits: Limits, reqs: seq<Request>): Buckets
  {
    if reqs == [] then map[]
    else
      var r := reqs[|reqs| - 1];
      Take(Swept(Table(limits, reqs[..|reqs| - 1]), r.at), r.client, LimitOf(limits, r.client), r.at)
  }

  /** The answer to the last request of a run. */
  predicate Answer(limits: Limits, reqs: seq<Request>)
    requires reqs != []
  {
    var r := reqs[|reqs| - 1];
    Level(Swept(Table(limits, reqs[..|reqs| - 1]), r.at), r.client, LimitOf(limits, r.client), r.at) >= 1.0
  }

  /** The same limiter without a sweep. */
  function FullTable(limits: Limits, reqs: seq<Request>): Buckets
  {
    if reqs == [] then map[]
    else
      var r := reqs[|reqs| - 1];
      Take(FullTable(limits, reqs[..|reqs| - 1]), r.client, LimitOf(limits, r.client), r.at)
  }

  predicate FullAnswer(limits: Limits, reqs: seq<Request>)
    requires reqs != []
  {
    var r := reqs[|reqs| - 1];
    Level(FullTable(limits, reqs[..|reqs| - 1]), r.client, LimitOf(limits, r.client), r.at) >= 1.0
  }

  /** Requests in the order the monotonic clock gives them. */
  predicate InOrder(reqs: seq<Request>)
  {
    forall i, j :: 0 <= i <= j < |reqs| ==> reqs[i].at <= reqs[j].at
  }

  ghost predicate Sensible(limits: Limits)
  {
    forall route: string :: limits(route).capacity >= 0.0 && limits(route).rate >= 0.0
  }

  /** After every call the table is small or holds only buckets touched within the TTL. */
  lemma TableSize(limits: Limits, reqs: seq<Request>)
    requires reqs != []
    ensures var t := Table(limits, reqs); var now := reqs[|reqs| - 1].at;
      |t| <= MAX_BUCKETS || forall k :: k in t ==> t[k].last >= now - BUCKET_TTL_SEC
  {
    var r := reqs[|reqs| - 1];
    var before := Table(limits, reqs[..|reqs| - 1]);
    var kept := Swept(before, r.at);
    var t := Table(limits, reqs);
    assert t.Keys == kept.Keys + {r.client};
    if |before| < MAX_BUCKETS {
      CardinalityPlusOne(kept.Keys, r.client);
    }
  }

  lemma CardinalityPlusOne<T>(s: set<T>, x: T)
    ensures |s + {x}| <= |s| + 1
  {
    if x in s {
      assert s + {x} == s;
    }
  }

  // ---------------------------------------------------------------------------
  // Sweeping is invisible

  /** A limit whose bucket refills completely within the TTL. */
  predicate RefillsWithinTtl(limit: Limit)
  {
    limit.capacity <= Gain(BUCKET_TTL_SEC, limit.rate)
  }

  /** The two tables hold the same buckets, except full ones the sweep forgot. */
  ghost predicate Agree(limits: Limits, swept: Buckets, full: Buckets, now: real)
  {
    && (forall k :: k in swept ==> k in full && full[k] == swept[k])
    && (forall k :: k in full ==> full[k].last <= now && full[k].tokens >= 0.0)
    && (forall k :: k in full && k !in swept ==> IsFull(full[k], LimitOf(limits, k), now))
  }

  predicate IsFull(b: Bucket, limit: Limit, now: real)
  {
    b.tokens + Gain(now - b.last, limit.rate) >= limit.capacity
  }

  lemma StaysFull(b: Bucket, limit: Limit, now: real, later: real)
    requires IsFull(b, limit, now) && limit.rate >= 0.0 && now <= later
    ensures IsFull(b, limit, later)
  {
    hide Gain;
    GainAdds(later - now, now - b.last, limit.rate);
    GainNonNegative(later - now, limit.rate);
    assert later - now + (now - b.last) == later - b.last;
  }

  lemma IdleIsFull(b: Bucket, limit: Limit, now: real)
    requires b.tokens >= 0.0 && limit.rate >= 0.0 && RefillsWithinTtl(limit) && b.last <= now - BUCKET_TTL_SEC
    ensures IsFull(b, limit, now)
  {
    hide Gain;
    var beyond := now - b.last - BUCKET_TTL_SEC;
    GainAdds(beyond, BUCKET_TTL_SEC, limit.rate);
    GainNonNegative(beyond, limit.rate);
    assert beyond + BUCKET_TTL_SEC == now - b.last;
  }

  lemma SweepAgrees(limits: Limits, swept: Buckets, full: Buckets, before: real, now: real)
    requires Sensible(limits) && (forall route: string :: RefillsWithinTtl(limits(route)))
    requires Agree(limits, swept, full, before) && before <= now
    ensures Agree(limits, Swept(swept, now), full, now)
  {
    var kept := Swept(swept, now);
    forall k | k in full && k !in kept
      ensures IsFull(full[k], LimitOf(limits, k), now)
    {
      var limit := LimitOf(limits, k);
      assert limit == limits(k.0);
      if k in swept {
        IdleIsFull(full[k], limit, now);
      } else {
        StaysFull(full[k], limit, before, now);
      }
    }
  }

  lemma FreshLevel(limit: Limit, now: real)
    ensures Refilled(Bucket(limit.capacity, now), limit, now) == limit.capacity
  {
    hide Gain;
    GainZero(limit.rate);
  }

  lemma RefilledNonNegative(b: Bucket, limit: Limit, now: real)
    requires limit.capacity >= 0.0 && limit.rate >= 0.0 && b.tokens >= 0.0 && b.last <= now
    ensures Refilled(b, limit, now) >= 0.0
    ensures IsFull(b, limit, now) ==> Refilled(b, limit, now) == limit.capacity
  {
    hide Gain;
    GainNonNegative(now - b.last, limit.rate);
  }

  lemma SameLevel(limits: Limits, swept: Buckets, full: Buckets, k: Client, now: real)
    requires Sensible(limits) && Agree(limits, swept, full, now)
    ensures Level(swept, k, LimitOf(limits, k), now) == Level(full, k, LimitOf(limits, k), now) >= 0.0
  {
    hide Refilled, IsFull;
    var limit := LimitOf(limits, k);
    assert limit == limits(k.0);
    FreshLevel(limit, now);
    if k in full {
      RefilledNonNegative(full[k], limit, now);
    }
  }

  lemma TakeAgrees(limits: Limits, swept: Buckets, full: Buckets, k: Client, now: real)
    requires Sensible(limits) && Agree(limits, swept, full, now)
    ensures Level(swept, k, LimitOf(limits, k), now) == Level(full, k, LimitOf(limits, k), now)
    ensures Agree(limits, Take(swept, k, LimitOf(limits, k), now), Take(full, k, LimitOf(limits, k), now), now)
  {
    hide Level, IsFull, LimitOf;
    SameLevel(limits, swept, full, k, now);
  }

  lemma {:induction false} TablesAgree(limits: Limits, reqs: seq<Request>)
    requires Sensible(limits) && (forall route: string :: RefillsWithinTtl(limits(route)))
    requires InOrder(reqs) && reqs != []
    ensures Agree(limits, Table(limits, reqs), FullTable(limits, reqs), reqs[|reqs| - 1].at)
    ensures Answer(limits, reqs) == FullAnswer(limits, reqs)
    decreases |reqs|
  {
    hide Agree, Swept, Take, Level;
    var r := reqs[|reqs| - 1];
    var init := reqs[..|reqs| - 1];
    var before := if init == [] then r.at else init[|init| - 1].at;
    if init == [] {
      EmptyAgree(limits, before);
    } else {
      TablesAgree(limits, init);
    }
    SweepAgrees(limits, Table(limits, init), FullTable(limits, init), before, r.at);
    TakeAgrees(limits, Swept(Table(limits, init), r.at), FullTable(limits, init), r.client, r.at);
  }

  lemma EmptyAgree(limits: Limits, now: real)
    ensures Agree(limits, map[], map[], now)
  {
  }
}
