/**
 The bounded CRL cache that clones of a client share (src/ltv/crl.rs). Each operation holds
 the cache lock, so a run of any number of clones is a sequence of these operations.
 */
module CrlCaching {
  import opened Results
  import opened Der
  import opened CrlSyntax
  import opened CrlVerdicts

  const MAX_CACHE_BYTES: nat := 32 * 1024 * 1024
  const MAX_CACHE_ENTRIES: nat := 64
  const MAX_URL_LENGTH: nat := 8192

  /** A body, when it was fetched on the monotonic clock, and the dates it parsed to. */
  datatype CacheEntry = CacheEntry(der: Bytes, fetchedAt: int, validity: CrlValidity)

  type Cache = map<string, CacheEntry>

  // ----- sizes -----

  /** The bytes of DER held. */
  ghost function Total(m: Cache): nat {
    if m == map[] then 0
    else
      var url :| url in m;
      |m[url].der| + Total(m - {url})
  }

  /** Any entry can be taken out first. */
  lemma {:induction false} TotalWithout(m: Cache, url: string)
    requires url in m
    ensures Total(m) == |m[url].der| + Total(m - {url})
    decreases |m|
  {
    var first :| first in m && Total(m) == |m[first].der| + Total(m - {first});
    if first != url {
      SmallerWithout(m, first);
      SmallerWithout(m, url);
      TotalWithout(m - {first}, url);
      TotalWithout(m - {url}, first);
      assert m - {first} - {url} == m - {url} - {first};
    }
  }

  lemma {:induction false} SmallerWithout(m: Cache, url: string)
    requires url in m
    ensures |m - {url}| == |m| - 1
  {
    assert (m - {url}).Keys == m.Keys - {url};
  }

  lemma {:induction false} TotalWith(m: Cache, url: string, e: CacheEntry)
    requires url !in m
    ensures Total(m[url := e]) == Total(m) + |e.der|
    ensures |m[url := e]| == |m| + 1
  {
    var bigger := m[url := e];
    TotalWithout(bigger, url);
    SmallerWithout(bigger, url);
    assert bigger - {url} == m;
  }

  // ----- eviction -----

  predicate Oldest(m: Cache, url: string) {
    url in m && forall u <- m :: m[url].fetchedAt <= m[u].fetchedAt
  }

  lemma {:induction false} SomeOldest(m: Cache)
    requires m != map[]
    ensures exists url :: Oldest(m, url)
    decreases |m|
  {
    var url :| url in m;
    var others := m - {url};
    SmallerWithout(m, url);
    if others == map[] {
      assert forall u <- m :: u == url by {
        assert forall u <- m :: u != url ==> u in others;
      }
      assert Oldest(m, url);
    } else {
      SomeOldest(others);
      var o :| Oldest(others, o);
      var best := if m[url].fetchedAt <= m[o].fetchedAt then url else o;
      assert forall u <- m :: u != url ==> u in others;
      assert Oldest(m, best);
    }
  }

  /** One more entry of `size` bytes fits. */
  ghost predicate Room(m: Cache, size: nat) {
    |m| < MAX_CACHE_ENTRIES && Total(m) + size <= MAX_CACHE_BYTES
  }

  function AfterEvicting(m: Cache, urls: seq<string>): Cache {
    if urls == [] then m else AfterEvicting(m, urls[..|urls| - 1]) - {urls[|urls| - 1]}
  }

  /** Each eviction takes an oldest entry, and only because the new entry does not fit yet. */
  ghost predicate Justified(m: Cache, urls: seq<string>, size: nat) {
    forall i :: 0 <= i < |urls| ==>
      var before := AfterEvicting(m, urls[..i]);
      Oldest(before, urls[i]) && !Room(before, size)
  }

  lemma {:induction false} JustifiedSnoc(m: Cache, urls: seq<string>, url: string, size: nat)
    requires Justified(m, urls, size)
    requires Oldest(AfterEvicting(m, urls), url) && !Room(AfterEvicting(m, urls), size)
    ensures Justified(m, urls + [url], size)
    ensures AfterEvicting(m, urls + [url]) == AfterEvicting(m, urls) - {url}
  {
    var longer := urls + [url];
    assert longer[..|urls|] == urls;
    forall i | 0 <= i < |longer|
      ensures var before := AfterEvicting(m, longer[..i]); Oldest(before, longer[i]) && !Room(before, size)
    {
      if i < |urls| {
        assert longer[..i] == urls[..i];
      }
    }
  }

  /** An entry the cache keeps at all. */
  predicate Cacheable(url: string, e: CacheEntry) {
    |e.der| <= MAX_CACHE_BYTES && |url| <= MAX_URL_LENGTH
  }

  /**
   What inserting does: an oversized entry or URL changes nothing; otherwise the entry for
   the same URL goes, then oldest entries while the new one does not fit, and the new entry
   is in.
   */
  ghost predicate Inserts(m: Cache, url: string, e: CacheEntry, evicted: seq<string>, m': Cache) {
    if !Cacheable(url, e) then evicted == [] && m' == m
    else
      && Justified(m - {url}, evicted, |e.der|)
      && Room(AfterEvicting(m - {url}, evicted), |e.der|)
      && m' == AfterEvicting(m - {url}, evicted)[url := e]
  }

  // ----- the operations -----

  datatype Lookup = Hit(der: Bytes) | TooLarge | Miss

  class CrlCache {
    var entries: Cache

    constructor ()
      ensures entries == map[]
    {
      entries := map[];
    }

    /** The sum over the values. */
    method SumBytes() returns (bytes: nat)
      ensures bytes == Total(entries)
    {
      bytes := 0;
      var rest := entries;
      while rest != map[]
        invariant bytes + Total(rest) == Total(entries)
        decreases |rest|
      {
        var url :| url in rest;
        TotalWithout(rest, url);
        SmallerWithout(rest, url);
        bytes := bytes + |rest[url].der|;
        rest := rest - {url};
      }
    }

    /** Insert an entry, evicting oldest entries while a bound would be broken. */
    method InsertCacheEntry(url: string, e: CacheEntry) returns (ghost evicted: seq<string>)
      modifies this
      ensures Inserts(old(entries), url, e, evicted, entries)
    {
      evicted := [];
      if |e.der| > MAX_CACHE_BYTES || |url| > MAX_URL_LENGTH {
        return;
      }
      entries := entries - {url};
      ghost var start := entries;
      var bytes := SumBytes();
      while |entries| >= MAX_CACHE_ENTRIES || bytes > MAX_CACHE_BYTES - |e.der|
        invariant bytes == Total(entries)
        invariant entries == AfterEvicting(start, evicted)
        invariant Justified(start, evicted, |e.der|)
        decreases |entries|
      {
        if entries == map[] {
          assert false;
          break;
        }
        SomeOldest(entries);
        var oldest :| Oldest(entries, oldest);
        TotalWithout(entries, oldest);
        SmallerWithout(entries, oldest);
        JustifiedSnoc(start, evicted, oldest, |e.der|);
        bytes := bytes - |entries[oldest].der|;
        entries := entries - {oldest};
        evicted := evicted + [oldest];
      }
      entries := entries[url := e];
    }

    /** Serve a live entry; drop one that is too old or no longer current. */
    method LookupUrl(url: string, elapsedFrom: int, grace: int, now: int, f: Freshness, maxBodySize: nat)
      returns (r: Lookup)
      modifies this
      ensures var m := old(entries);
              var live := url in m && elapsedFrom - m[url].fetchedAt < grace && IsCurrent(m[url].validity, now, f);
              && (live ==> entries == m && r == if |m[url].der| > maxBodySize then TooLarge else Hit(m[url].der))
              && (!live ==> entries == m - {url} && r == Miss)
      ensures forall dates: Dates :: Step(dates, old(entries), LookedUp(url, r.Miss?), entries)
    {
      if url in entries {
        var entry := entries[url];
        if elapsedFrom - entry.fetchedAt < grace && IsCurrent(entry.validity, now, f) {
          if |entry.der| > maxBodySize {
            return TooLarge;
          }
          return Hit(entry.der);
        }
      }
      entries := entries - {url};
      return Miss;
    }

    /** After a download: cache the body if it parses, with the dates it parses to. */
    method StoreFetched(k: Codecs, url: string, der: Bytes, at: int) returns (ghost evicted: seq<string>)
      modifies this
      ensures match ValidityOf(k, der)
              case None => entries == old(entries)
              case Some(v) => Step(DatesOf(k), old(entries), Stored(url, CacheEntry(der, at, v), evicted), entries)
    {
      evicted := [];
      var parsed := ParseCrl(k, der);
      if parsed.Ok? {
        evicted := InsertCacheEntry(url,
                                    CacheEntry(der, at, CrlValidity(parsed.value.thisUpdate, parsed.value.nextUpdate)));
      }
    }

    method ClearCache()
      modifies this
      ensures entries == map[]
    {
      entries := map[];
    }
  }

  // ----- every run -----

  /** One locked operation of some clone. */
  datatype Operation =
    | LookedUp(url: string, dropped: bool)
    | Stored(url: string, entry: CacheEntry, evicted: seq<string>)
    | Cleared

  /** The dates a body parses to, if it parses. */
  type Dates = Bytes -> Option<CrlValidity>

  function DatesOf(k: Codecs): Dates {
    der => ValidityOf(k, der)
  }

  ghost predicate Step(dates: Dates, m: Cache, op: Operation, m': Cache) {
    match op
    case LookedUp(url, dropped) => m' == if dropped then m - {url} else m
    case Stored(url, e, evicted) => dates(e.der) == Some(e.validity) && Inserts(m, url, e, evicted, m')
    case Cleared => m' == map[]
  }

  /** Within both bounds, and every entry keeps the dates its own bytes parse to. */
  ghost predicate Sound(dates: Dates, m: Cache) {
    && |m| <= MAX_CACHE_ENTRIES
    && Total(m) <= MAX_CACHE_BYTES
    && forall url <- m :: Cacheable(url, m[url]) && dates(m[url].der) == Some(m[url].validity)
  }

  lemma {:induction false} EvictingShrinks(m: Cache, urls: seq<string>)
    ensures forall u <- AfterEvicting(m, urls) :: u in m && AfterEvicting(m, urls)[u] == m[u]
  {
    if urls != [] {
      EvictingShrinks(m, urls[..|urls| - 1]);
    }
  }

  lemma {:induction false} DroppingIsSound(dates: Dates, m: Cache, url: string)
    requires Sound(dates, m)
    ensures Sound(dates, m - {url})
  {
    if url in m {
      TotalWithout(m, url);
      SmallerWithout(m, url);
    } else {
      assert m - {url} == m;
    }
  }

  lemma {:induction false} StepKeepsSound(dates: Dates, m: Cache, op: Operation, m': Cache)
    requires Sound(dates, m) && Step(dates, m, op, m')
    ensures Sound(dates, m')
  {
    match op
    case LookedUp(url, dropped) => DroppingIsSound(dates, m, url);
    case Cleared =>
    case Stored(url, e, evicted) =>
      if Cacheable(url, e) {
        var kept := AfterEvicting(m - {url}, evicted);
        EvictingShrinks(m - {url}, evicted);
        TotalWith(kept, url, e);
      }
  }

  /** The cache before each operation of a run, and after the last. */
  ghost predicate Run(dates: Dates, states: seq<Cache>, ops: seq<Operation>) {
    && |states| == |ops| + 1
    && states[0] == map[]
    && forall i :: 0 <= i < |ops| ==> Step(dates, states[i], ops[i], states[i + 1])
  }

  /** In every state of every run the cache is within its bounds and its dates are those of its bytes. */
  lemma {:induction false} EveryStateIsSound(dates: Dates, states: seq<Cache>, ops: seq<Operation>, i: nat)
    requires Run(dates, states, ops) && i < |states|
    ensures Sound(dates, states[i])
  {
    if i > 0 {
      EveryStateIsSound(dates, states, ops, i - 1);
      StepKeepsSound(dates, states[i - 1], ops[i - 1], states[i]);
    }
  }

  /** In every state of every run the stored dates of an entry are current exactly when its bytes are a current CRL. */
  lemma {:induction false} CachedCurrentnessIsTrue(k: Codecs, states: seq<Cache>, ops: seq<Operation>, i: nat,
                                                   url: string)
    requires Run(DatesOf(k), states, ops) && i < |states| && url in states[i]
    ensures forall now, f :: IsCurrent(states[i][url].validity, now, f) <==> CrlIsCurrent(k, states[i][url].der, now, f)
  {
    EveryStateIsSound(DatesOf(k), states, ops, i);
    StoredDatesStandInForReparse(k, states[i][url].der, states[i][url].validity);
  }

  /** Nothing but a replaced entry leaves on an insertion that fits, and what is evicted was there. */
  lemma {:induction false} InsertionThatFitsEvictsNothing(m: Cache, url: string, e: CacheEntry, evicted: seq<string>,
                                                          m': Cache)
    requires Inserts(m, url, e, evicted, m') && Cacheable(url, e)
    ensures url in m' && m'[url] == e
    ensures Room(m - {url}, |e.der|) <==> evicted == []
    ensures evicted == [] ==> m' == (m - {url})[url := e]
    ensures forall i :: 0 <= i < |evicted| ==> evicted[i] in m && evicted[i] != url
  {
    if evicted != [] {
      assert evicted[..0] == [];
      assert !Room(AfterEvicting(m - {url}, evicted[..0]), |e.der|);
    }
    forall i | 0 <= i < |evicted| ensures evicted[i] in m && evicted[i] != url {
      EvictingShrinks(m - {url}, evicted[..i]);
      assert Oldest(AfterEvicting(m - {url}, evicted[..i]), evicted[i]);
    }
  }

  /**
   The bounds in numbers: in every state of every run at most 64 entries, 32 MiB of DER and
   URLs of 8192 characters.
   */
  lemma {:induction false} EveryStateIsBounded(dates: Dates, states: seq<Cache>, ops: seq<Operation>, i: nat)
    requires Run(dates, states, ops) && i < |states|
    ensures |states[i]| <= 64 && Total(states[i]) <= 33_554_432
    ensures forall url <- states[i] :: |url| <= 8192 && dates(states[i][url].der) == Some(states[i][url].validity)
  {
    EveryStateIsSound(dates, states, ops, i);
  }

  /**
   Each eviction takes an entry fetched no later than any other there is, while the new one
   does not fit beside them.
   */
  lemma {:induction false} EvictionsAreOldestAndNeeded(m: Cache, url: string, e: CacheEntry, evicted: seq<string>,
                                                       m': Cache, i: nat)
    requires Inserts(m, url, e, evicted, m') && i < |evicted|
    ensures var before := AfterEvicting(m - {url}, evicted[..i]);
            && evicted[i] in before
            && (forall u <- before :: before[evicted[i]].fetchedAt <= before[u].fetchedAt)
            && (|before| >= 64 || Total(before) + |e.der| > 33_554_432)
            && AfterEvicting(m - {url}, evicted[..i + 1]) == before - {evicted[i]}
  {
    assert evicted[..i + 1][..i] == evicted[..i];
  }

  /** An entry of an oversized body or URL is not kept, any other is; and everything left was there before or is new. */
  lemma {:induction false} InsertionKeepsTheRest(m: Cache, url: string, e: CacheEntry, evicted: seq<string>, m': Cache)
    requires Inserts(m, url, e, evicted, m')
    ensures |e.der| > 33_554_432 || |url| > 8192 ==> m' == m
    ensures |e.der| <= 33_554_432 && |url| <= 8192 ==> url in m' && m'[url] == e
    ensures forall u <- m' :: u != url ==> u in m && m'[u] == m[u]
    ensures forall u <- m :: u != url && u !in evicted ==> u in m' && m'[u] == m[u]
  {
    EvictingShrinks(m - {url}, evicted);
    EvictingKeeps(m - {url}, evicted);
  }

  lemma {:induction false} EvictingKeeps(m: Cache, urls: seq<string>)
    ensures forall u <- m :: u !in urls ==> u in AfterEvicting(m, urls)
  {
    if urls != [] {
      EvictingKeeps(m, urls[..|urls| - 1]);
      assert forall u <- urls[..|urls| - 1] :: u in urls;
    }
  }
}
