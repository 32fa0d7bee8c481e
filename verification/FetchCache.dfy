/** The in-memory cache of fetched documents (OIDC discovery documents, and again JWKS key lists): a
    bounded dict kept in least-recently-used order, with a time to live. The fetch between looking
    up and storing is a suspension point, so the two halves are separate steps. */
module FetchCache {
  import opened PyText

  /** Dict entries in insertion order; times in microseconds. */
  datatype Entry<V> = Entry(url: string, fetchedAt: int, doc: V)

  const CACHE_TTL := 3_600_000_000
  const CACHE_MAX := 64

  predicate DistinctUrls<V>(c: seq<Entry<V>>)
  {
    forall i, j :: 0 <= i < j < |c| ==> c[i].url != c[j].url
  }

  /** Index of the entry for `url`, or |c|. */
  function Position<V>(c: seq<Entry<V>>, url: string): (i: nat)
    ensures i <= |c|
    ensures i < |c| ==> c[i].url == url
    ensures i == |c| ==> forall j :: 0 <= j < |c| ==> c[j].url != url
  {
    if c == [] then 0 else if c[0].url == url then 0 else 1 + Position(c[1..], url)
  }

  function Without<V>(c: seq<Entry<V>>, i: nat): seq<Entry<V>>
    requires i < |c|
  {
    c[..i] + c[i + 1..]
  }

  predicate Fresh<V>(e: Entry<V>, now: int) { now - e.fetchedAt < CACHE_TTL }

  function LookedUp<V>(c: seq<Entry<V>>, url: string, now: int): seq<Entry<V>>
  {
    var i := Position(c, url);
    if i == |c| then c
    else if Fresh(c[i], now) then Without(c, i) + [c[i]]
    else Without(c, i)
  }

  function Hit<V>(c: seq<Entry<V>>, url: string, now: int): Option<V>
  {
    var i := Position(c, url);
    if i < |c| && Fresh(c[i], now) then Some(c[i].doc) else None
  }

  function Stored<V>(c: seq<Entry<V>>, url: string, startedAt: int, doc: V): seq<Entry<V>>
  {
    var room := if |c| >= CACHE_MAX then c[1..] else c;
    var i := Position(room, url);
    if i < |room| then room[i := Entry(url, startedAt, doc)] else room + [Entry(url, startedAt, doc)]
  }

  class Cache<V> {
    var entries: seq<Entry<V>>

    constructor ()
      ensures entries == []
    {
      entries := [];
    }

    /** The part before the fetch: a fresh entry moves to the recently used end, a stale one goes. */
    method BeginGet(url: string, now: int) returns (hit: Option<V>)
      modifies this
      ensures entries == LookedUp(old(entries), url, now) && hit == Hit(old(entries), url, now)
    {
      var i := Position(entries, url);
      if i < |entries| {
        var cached := entries[i];
        entries := Without(entries, i);
        if now - cached.fetchedAt < CACHE_TTL {
          entries := entries + [cached];
          return Some(cached.doc);
        }
      }
      hit := None;
    }

    /** The part after the fetch, with the moment the call began. */
    method FinishGet(url: string, startedAt: int, fetched: Option<V>)
      modifies this
      ensures entries ==
        match fetched case None => old(entries) case Some(doc) => Stored(old(entries), url, startedAt, doc)
    {
      if fetched.Some? {
        if |entries| >= CACHE_MAX {
          entries := entries[1..];
        }
        var i := Position(entries, url);
        if i < |entries| {
          entries := entries[i := Entry(url, startedAt, fetched.value)];
        } else {
          entries := entries + [Entry(url, startedAt, fetched.value)];
        }
      }
    }
  }

  // ---------------------------------------------------------------------------
  // Interleaved calls

  datatype Step<V> = Begin(url: string, now: int) | Finish(url: string, startedAt: int, fetched: Option<V>)

  function Next<V>(c: seq<Entry<V>>, s: Step<V>): seq<Entry<V>>
  {
    match s
    case Begin(url, now) => LookedUp(c, url, now)
    case Finish(url, startedAt, Some(doc)) => Stored(c, url, startedAt, doc)
    case Finish(_, _, None) => c
  }

  function After<V>(steps: seq<Step<V>>): seq<Entry<V>>
  {
    if steps == [] then [] else Next(After(steps[..|steps| - 1]), steps[|steps| - 1])
  }

  /** Everything cached was fetched for its own URL by a call that began when the entry says. */
  ghost predicate Sound<V(!new)>(c: seq<Entry<V>>, steps: seq<Step<V>>)
  {
    && |c| <= CACHE_MAX && DistinctUrls(c)
    && forall i :: 0 <= i < |c| ==> Finish(c[i].url, c[i].fetchedAt, Some(c[i].doc)) in steps
  }

  lemma {:induction false} LookedUpKeeps<V>(c: seq<Entry<V>>, url: string, now: int)
    requires DistinctUrls(c)
    ensures DistinctUrls(LookedUp(c, url, now)) && |LookedUp(c, url, now)| <= |c|
    ensures forall e :: e in LookedUp(c, url, now) ==> e in c
  {
    hide Position, DistinctUrls, Without;
    var i := Position(c, url);
    if i < |c| {
      WithoutKeeps(c, i);
      LastAgain(c, i);
    }
  }

  lemma {:induction false} WithoutKeeps<V>(c: seq<Entry<V>>, i: nat)
    requires DistinctUrls(c) && i < |c|
    ensures DistinctUrls(Without(c, i)) && |Without(c, i)| == |c| - 1
    ensures forall e :: e in Without(c, i) ==> e in c
    ensures forall j :: 0 <= j < |Without(c, i)| ==> Without(c, i)[j].url != c[i].url
  {
  }

  lemma {:induction false} LastAgain<V>(c: seq<Entry<V>>, i: nat)
    requires DistinctUrls(c) && i < |c|
    ensures DistinctUrls(Without(c, i) + [c[i]])
  {
    hide Without;
    WithoutKeeps(c, i);
  }

  lemma {:induction false} StoredKeeps<V>(c: seq<Entry<V>>, url: string, startedAt: int, doc: V)
    requires DistinctUrls(c) && |c| <= CACHE_MAX
    ensures DistinctUrls(Stored(c, url, startedAt, doc)) && |Stored(c, url, startedAt, doc)| <= CACHE_MAX
    ensures forall e :: e in Stored(c, url, startedAt, doc) ==> e in c || e == Entry(url, startedAt, doc)
  {
  }

  /** Under every interleaving the cache stays within its bound and holds only what was fetched. */
  lemma {:induction false} AfterIsSound<V(!new)>(steps: seq<Step<V>>)
    ensures Sound(After(steps), steps)
    decreases |steps|
  {
    hide LookedUp, Stored;
    if steps != [] {
      var init := steps[..|steps| - 1];
      var s := steps[|steps| - 1];
      var c := After(init);
      AfterIsSound(init);
      match s {
        case Begin(url, now) => LookedUpKeeps(c, url, now);
        case Finish(url, startedAt, Some(doc)) => StoredKeeps(c, url, startedAt, doc);
        case Finish(_, _, None) =>
      }
      forall i | 0 <= i < |After(steps)|
        ensures var e := After(steps)[i]; Finish(e.url, e.fetchedAt, Some(e.doc)) in steps
      {
        var e := After(steps)[i];
        assert e in After(steps);
        if e in c {
          assert Finish(e.url, e.fetchedAt, Some(e.doc)) in init;
        }
      }
    }
  }

  /** An answer served from the cache, under any interleaving, is a document fetched for that URL by a
      call that began less than an hour before. */
  lemma HitIsRecent<V(!new)>(steps: seq<Step<V>>, url: string, now: int) returns (startedAt: int)
    requires Hit(After(steps), url, now).Some?
    ensures now - startedAt < CACHE_TTL
    ensures Finish(url, startedAt, Some(Hit(After(steps), url, now).value)) in steps
  {
    AfterIsSound(steps);
    startedAt := After(steps)[Position(After(steps), url)].fetchedAt;
  }

  // ---------------------------------------------------------------------------
  // Calls one after another

  /** One whole call: the fetch happens only on a miss. */
  datatype Call<V> = Call(url: string, now: int, fetched: Option<V>)

  function Called<V>(c: seq<Entry<V>>, g: Call<V>): seq<Entry<V>>
  {
    if Hit(c, g.url, g.now).Some? || g.fetched.None? then LookedUp(c, g.url, g.now)
    else Stored(LookedUp(c, g.url, g.now), g.url, g.now, g.fetched.value)
  }

  function CalledAll<V>(c: seq<Entry<V>>, calls: seq<Call<V>>): seq<Entry<V>>
  {
    if calls == [] then c else Called(CalledAll(c, calls[..|calls| - 1]), calls[|calls| - 1])
  }

  function Urls<V>(calls: seq<Call<V>>): set<string> { set i | 0 <= i < |calls| :: calls[i].url }

  predicate BehindAt<V(==)>(c: seq<Entry<V>>, e: Entry<V>, recent: set<string>, p: nat)
  {
    p < |c| && c[p] == e && forall j :: p < j < |c| ==> c[j].url in recent
  }

  /** The entry is cached and everything used more recently than it is in `recent`. */
  ghost predicate Behind<V>(c: seq<Entry<V>>, e: Entry<V>, recent: set<string>)
  {
    exists p: nat :: BehindAt(c, e, recent, p)
  }

  lemma UrlsBehindAreFew<V>(c: seq<Entry<V>>, recent: set<string>)
    requires DistinctUrls(c) && forall j :: 0 <= j < |c| ==> c[j].url in recent
    ensures |c| <= |recent|
    decreases |c|
  {
    if c != [] {
      var rest := c[1..];
      assert forall j :: 0 <= j < |rest| ==> rest[j] == c[j + 1];
      UrlsBehindAreFew(rest, recent - {c[0].url});
    }
  }

  lemma WithoutKeepsBehind<V>(c: seq<Entry<V>>, e: Entry<V>, recent: set<string>, p: nat, i: nat)
    requires BehindAt(c, e, recent, p) && i < |c| && i != p
    ensures BehindAt(Without(c, i), e, recent, if i < p then p - 1 else p)
  {
    var w := Without(c, i);
    assert forall j :: 0 <= j < |w| ==> w[j] == if j < i then c[j] else c[j + 1];
  }

  lemma AppendKeepsBehind<V>(c: seq<Entry<V>>, e: Entry<V>, recent: set<string>, p: nat, x: Entry<V>)
    requires BehindAt(c, e, recent, p)
    ensures BehindAt(c + [x], e, recent + {x.url}, p)
  {
  }

  lemma {:induction false} LookupKeepsBehind<V>(c: seq<Entry<V>>, e: Entry<V>, recent: set<string>, url: string,
                                               now: int)
    requires Behind(c, e, recent) && url != e.url
    ensures Behind(LookedUp(c, url, now), e, recent + {url})
  {
    hide Without, BehindAt, Fresh;
    var p: nat :| BehindAt(c, e, recent, p);
    var i := Position(c, url);
    if i == |c| {
      MoreRecent(c, e, recent, p, url);
    } else {
      assert i != p by { SamePosition(c, e, recent, p); }
      WithoutKeepsBehind(c, e, recent, p, i);
      var q := if i < p then p - 1 else p;
      AppendKeepsBehind(Without(c, i), e, recent, q, c[i]);
      MoreRecent(Without(c, i), e, recent, q, url);
    }
  }

  lemma SamePosition<V>(c: seq<Entry<V>>, e: Entry<V>, recent: set<string>, p: nat)
    requires BehindAt(c, e, recent, p)
    ensures p < |c| && c[p] == e
  {
  }

  lemma MoreRecent<V>(c: seq<Entry<V>>, e: Entry<V>, recent: set<string>, p: nat, url: string)
    requires BehindAt(c, e, recent, p)
    ensures BehindAt(c, e, recent + {url}, p)
  {
  }

  lemma NotOldestWhenFull<V>(c: seq<Entry<V>>, e: Entry<V>, recent: set<string>, p: nat, url: string)
    requires DistinctUrls(c) && |c| >= CACHE_MAX && BehindAt(c, e, recent, p)
    requires url in recent && |recent| < CACHE_MAX && Position(c, url) == |c|
    ensures p > 0
  {
    if p == 0 {
      var others := c[1..];
      forall j | 0 <= j < |others|
        ensures others[j].url in recent - {url}
      {
        assert others[j] == c[j + 1];
      }
      UrlsBehindAreFew(others, recent - {url});
    }
  }

  lemma {:induction false} StoreKeepsBehind<V>(c: seq<Entry<V>>, e: Entry<V>, recent: set<string>, url: string,
                                              now: int, doc: V)
    requires DistinctUrls(c) && |c| <= CACHE_MAX && Behind(c, e, recent) && url in recent
    requires Position(c, url) == |c| && |recent| < CACHE_MAX
    ensures Behind(Stored(c, url, now, doc), e, recent)
  {
    hide BehindAt, DistinctUrls;
    var p: nat :| BehindAt(c, e, recent, p);
    var x := Entry(url, now, doc);
    assert recent + {url} == recent;
    if |c| >= CACHE_MAX {
      NotOldestWhenFull(c, e, recent, p, url);
      WithoutKeepsBehind(c, e, recent, p, 0);
      assert Without(c, 0) == c[1..];
      AppendKeepsBehind(c[1..], e, recent, p - 1, x);
      assert Position(c[1..], url) == |c[1..]|;
    } else {
      AppendKeepsBehind(c, e, recent, p, x);
    }
  }

  lemma MissLeavesUrlOut<V>(c: seq<Entry<V>>, url: string, now: int)
    requires DistinctUrls(c) && Hit(c, url, now).None?
    ensures var after := LookedUp(c, url, now); Position(after, url) == |after|
  {
    var after := LookedUp(c, url, now);
    assert forall j :: 0 <= j < |after| ==> after[j].url != url;
  }

  lemma {:induction false} StaysBehind<V>(c: seq<Entry<V>>, e: Entry<V>, calls: seq<Call<V>>)
    requires DistinctUrls(c) && |c| <= CACHE_MAX && Behind(c, e, {})
    requires e.url !in Urls(calls) && |Urls(calls)| < CACHE_MAX
    ensures var after := CalledAll(c, calls);
      DistinctUrls(after) && |after| <= CACHE_MAX && Behind(after, e, Urls(calls))
    decreases |calls|
  {
    hide LookedUp, Stored, Hit, Behind, Position, DistinctUrls;
    if calls != [] {
      var init := calls[..|calls| - 1];
      var g := calls[|calls| - 1];
      assert calls == init + [g];
      assert Urls(calls) == Urls(init) + {g.url};
      Subset(Urls(init), Urls(calls));
      StaysBehind(c, e, init);
      var before := CalledAll(c, init);
      LookedUpKeeps(before, g.url, g.now);
      LookupKeepsBehind(before, e, Urls(init), g.url, g.now);
      if !(Hit(before, g.url, g.now).Some? || g.fetched.None?) {
        var looked := LookedUp(before, g.url, g.now);
        MissLeavesUrlOut(before, g.url, g.now);
        StoredKeeps(looked, g.url, g.now, g.fetched.value);
        StoreKeepsBehind(looked, e, Urls(calls), g.url, g.now, g.fetched.value);
      }
    }
  }

  lemma Subset<T>(a: set<T>, b: set<T>)
    requires a <= b
    ensures |a| <= |b|
  {
    assert b == a + (b - a);
  }

  lemma CallCaches<V>(c: seq<Entry<V>>, g: Call<V>) returns (e: Entry<V>)
    requires DistinctUrls(c) && |c| <= CACHE_MAX
    requires Hit(c, g.url, g.now).Some? || g.fetched.Some?
    ensures var after := Called(c, g);
      && DistinctUrls(after) && |after| <= CACHE_MAX && Behind(after, e, {}) && e.url == g.url && Fresh(e, g.now)
    ensures Hit(c, g.url, g.now).None? ==> e.fetchedAt == g.now && e.doc == g.fetched.value
    ensures Hit(c, g.url, g.now).Some? ==> e in c && e.doc == Hit(c, g.url, g.now).value
  {
    var after := Called(c, g);
    LookedUpKeeps(c, g.url, g.now);
    if Hit(c, g.url, g.now).Some? {
      e := c[Position(c, g.url)];
    } else {
      e := Entry(g.url, g.now, g.fetched.value);
      var looked := LookedUp(c, g.url, g.now);
      MissLeavesUrlOut(c, g.url, g.now);
      StoredKeeps(looked, g.url, g.now, g.fetched.value);
      var room := if |looked| >= CACHE_MAX then looked[1..] else looked;
      assert Position(room, g.url) == |room|;
    }
    assert BehindAt(after, e, {}, |after| - 1);
  }

  /** In calls made one after another, a URL whose document was cached is served from the cache again,
      with that same document, while it is fresh and fewer than 64 other URLs were asked for since. */
  lemma ReuseIsAHit<V>(c: seq<Entry<V>>, first: Call<V>, between: seq<Call<V>>, now: int) returns (e: Entry<V>)
    requires DistinctUrls(c) && |c| <= CACHE_MAX
    requires Hit(c, first.url, first.now).Some? || first.fetched.Some?
    requires first.url !in Urls(between) && |Urls(between)| < CACHE_MAX
    ensures e.url == first.url
    ensures Hit(c, first.url, first.now).None? ==> e.fetchedAt == first.now
    ensures Hit(c, first.url, first.now).Some? ==> e in c && Fresh(e, first.now)
    ensures e.doc ==
      if Hit(c, first.url, first.now).Some? then Hit(c, first.url, first.now).value else first.fetched.value
    ensures Hit(CalledAll(Called(c, first), between), first.url, now) == if Fresh(e, now) then Some(e.doc) else None
  {
    hide LookedUp, Stored;
    e := CallCaches(c, first);
    StaysBehind(Called(c, first), e, between);
    var after := CalledAll(Called(c, first), between);
    var p: nat :| BehindAt(after, e, Urls(between), p);
    assert Position(after, first.url) == p;
  }

  /** A document fetched at some moment is served again, without another fetch, to any call less than an hour
      after that moment, if fewer than 64 other URLs were asked for in between; any later call misses. */
  lemma FetchedIsReusedWithinTtl<V>(c: seq<Entry<V>>, first: Call<V>, between: seq<Call<V>>, now: int)
    requires DistinctUrls(c) && |c| <= CACHE_MAX
    requires Hit(c, first.url, first.now).None? && first.fetched.Some?
    requires first.url !in Urls(between) && |Urls(between)| < CACHE_MAX
    ensures Hit(CalledAll(Called(c, first), between), first.url, now)
         == if now - first.now < CACHE_TTL then first.fetched else None
  {
    hide Called, CalledAll, Hit;
    var e := ReuseIsAHit(c, first, between, now);
  }

  /** A first call for a URL, and rounds of calls for other URLs each followed by another call for it. */
  function Reuses<V>(first: Call<V>, rounds: seq<(seq<Call<V>>, Call<V>)>): seq<Call<V>>
  {
    if rounds == [] then [first]
    else
      var last := rounds[|rounds| - 1];
      Reuses(first, rounds[..|rounds| - 1]) + last.0 + [last.1]
  }

  /** Every round asks for fewer than 64 other URLs, and comes less than an hour after the first call. */
  predicate KeptInUse<V>(first: Call<V>, rounds: seq<(seq<Call<V>>, Call<V>)>)
  {
    forall i :: 0 <= i < |rounds| ==>
      && rounds[i].1.url == first.url && first.url !in Urls(rounds[i].0) && |Urls(rounds[i].0)| < CACHE_MAX
      && rounds[i].1.now - first.now < CACHE_TTL
  }

  lemma {:induction false} CalledAllConcat<V>(c: seq<Entry<V>>, a: seq<Call<V>>, b: seq<Call<V>>)
    ensures CalledAll(c, a + b) == CalledAll(CalledAll(c, a), b)
  {
    hide Called;
    if b == [] {
      assert a + b == a;
    } else {
      assert (a + b)[..|a + b| - 1] == a + b[..|b| - 1];
      CalledAllConcat(c, a, b[..|b| - 1]);
    }
  }

  lemma CalledOnce<V>(c: seq<Entry<V>>, g: Call<V>)
    ensures CalledAll(c, [g]) == Called(c, g)
  {
    hide Called;
    assert [g][..0] == [];
  }

  /** An entry behind fewer than 64 other URLs answers while it is fresh, and its use brings it to the end. */
  lemma UsedAgain<V>(c: seq<Entry<V>>, e: Entry<V>, calls: seq<Call<V>>, g: Call<V>)
    requires DistinctUrls(c) && |c| <= CACHE_MAX && Behind(c, e, {})
    requires e.url !in Urls(calls) && |Urls(calls)| < CACHE_MAX && g.url == e.url && Fresh(e, g.now)
    ensures var mid := CalledAll(c, calls); var after := Called(mid, g);
      && Hit(mid, e.url, g.now) == Some(e.doc)
      && DistinctUrls(after) && |after| <= CACHE_MAX && Behind(after, e, {})
  {
    hide LookedUp, Stored, Called;
    StaysBehind(c, e, calls);
    var mid := CalledAll(c, calls);
    var p: nat :| BehindAt(mid, e, Urls(calls), p);
    assert Position(mid, e.url) == p;
    var again := CallCaches(mid, g);
    assert again == e;
  }

  lemma {:induction false} StaysInUse<V>(c: seq<Entry<V>>, first: Call<V>, rounds: seq<(seq<Call<V>>, Call<V>)>)
    requires DistinctUrls(c) && |c| <= CACHE_MAX && KeptInUse(first, rounds)
    requires Hit(c, first.url, first.now).None? && first.fetched.Some?
    ensures var after := CalledAll(c, Reuses(first, rounds));
      DistinctUrls(after) && |after| <= CACHE_MAX && Behind(after, Entry(first.url, first.now, first.fetched.value), {})
  {
    hide Called, Hit, Behind, DistinctUrls, CalledAll;
    var e := Entry(first.url, first.now, first.fetched.value);
    if rounds == [] {
      CalledOnce(c, first);
      var stored := CallCaches(c, first);
      assert stored == e;
    } else {
      var init, last := rounds[..|rounds| - 1], rounds[|rounds| - 1];
      StaysInUse(c, first, init);
      var mid := CalledAll(c, Reuses(first, init));
      UsedAgain(mid, e, last.0, last.1);
      CalledAllConcat(c, Reuses(first, init), last.0);
      CalledAllConcat(c, Reuses(first, init) + last.0, [last.1]);
      CalledOnce(CalledAll(mid, last.0), last.1);
    }
  }

  /** One fetch serves every use of its URL for an hour, as long as fewer than 64 other URLs are asked for
      between one use and the next: each of these calls is a hit with the document first fetched. */
  lemma OneFetchServesAll<V>(c: seq<Entry<V>>, first: Call<V>, rounds: seq<(seq<Call<V>>, Call<V>)>, i: nat)
    requires DistinctUrls(c) && |c| <= CACHE_MAX && KeptInUse(first, rounds) && i < |rounds|
    requires Hit(c, first.url, first.now).None? && first.fetched.Some?
    ensures Hit(CalledAll(c, Reuses(first, rounds[..i]) + rounds[i].0), first.url, rounds[i].1.now) == first.fetched
  {
    hide Called, Hit, Behind, DistinctUrls, CalledAll, Reuses;
    StaysInUse(c, first, rounds[..i]);
    var mid := CalledAll(c, Reuses(first, rounds[..i]));
    UsedAgain(mid, Entry(first.url, first.now, first.fetched.value), rounds[i].0, rounds[i].1);
    CalledAllConcat(c, Reuses(first, rounds[..i]), rounds[i].0);
  }
}
