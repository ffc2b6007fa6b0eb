/** The read-through cache in front of the store
    (server/src/services/cache.service.ts): a bounded LRU map from slug to
    row, with a per-entry time to live, that `getLink` consults before the
    database. The `lru-cache` library is modelled by the entries it holds, the
    order of use and its staleness rule. Every timing decision of one call
    reads the same clock value `now`, in milliseconds. */
module CacheService {
  import opened Common
  import opened UrlStore

  /** `config.cache` (server/src/config/index.ts). */
  const MaxItems: nat := 1000
  const DefaultTtlMs: int := 5 * 60 * 1000

  /** One cache slot: the row, its time to live and when that time started. */
  datatype CacheEntry = CacheEntry(record: UrlRow, ttl: int, start: int)

  /** What `getStats` reports. */
  datatype CacheStats = CacheStats(size: nat, max: nat, ttl: int)

  /** `isExpired`: a link without an expiration never expires; one with an
      expiration is expired only strictly after that instant. */
  predicate IsExpired(rec: UrlRow, now: int) {
    rec.expirationDate.Some? && now > rec.expirationDate.value
  }

  /** `calculateOptimalTtl`: the default, or the time left until expiration if that is shorter. */
  function CalculateOptimalTtl(expirationDate: Option<int>, now: int): (ttl: int)
    ensures ttl <= DefaultTtlMs
    ensures expirationDate.None? ==> ttl == DefaultTtlMs
    ensures expirationDate.Some? ==> ttl <= expirationDate.value - now
                                     && (ttl == DefaultTtlMs || ttl == expirationDate.value - now)
    ensures expirationDate.Some? && now <= expirationDate.value ==> 0 <= ttl
  {
    if expirationDate.None? then DefaultTtlMs
    else
      var timeUntilExpiration := expirationDate.value - now;
      if DefaultTtlMs <= timeUntilExpiration then DefaultTtlMs else timeUntilExpiration
  }

  /** The library's staleness rule: a ttl of 0 means "never stale". */
  predicate IsStale(e: CacheEntry, now: int) {
    e.ttl != 0 && now - e.start > e.ttl
  }

  /** `cached || fetched`, then the expiry check: what `getLink` answers
      from what the cache and the store hold. */
  function LinkOutcome(cached: Option<UrlRow>, fetched: Option<UrlRow>, now: int): (r: Option<UrlRow>)
    ensures r.Some? ==> !IsExpired(r.value, now)
    ensures cached.Some? ==> r == (if IsExpired(cached.value, now) then None else cached)
    ensures cached.None? ==> r == (if fetched.Some? && !IsExpired(fetched.value, now) then fetched else None)
    // A link without an expiration, or whose expiration is now or later, is answered.
    ensures var url := if cached.Some? then cached else fetched;
            url.Some? && (url.value.expirationDate.None? || now <= url.value.expirationDate.value) ==> r == url
    // Nothing in the cache or the store: null.
    ensures cached.None? && fetched.None? ==> r.None?
  {
    var url := if cached.Some? then cached else fetched;
    if url.None? then None
    else if IsExpired(url.value, now) then None
    else url
  }

  /** The order of use without `k`. */
  function RemoveKey(order: seq<string>, k: string): (r: seq<string>)
    ensures forall x :: x in r <==> x in order && x != k
    ensures |r| <= |order|
    ensures k !in order ==> r == order
    ensures Distinct(order) ==> Distinct(r)
    ensures Distinct(order) && k in order ==> |r| == |order| - 1
  {
    if order == [] then []
    else if order[0] == k then
      assert Distinct(order) ==> k !in order[1..];
      RemoveKey(order[1..], k)
    else
      var rest := RemoveKey(order[1..], k);
      assert order[0] !in order[1..] ==> order[0] !in rest;
      [order[0]] + rest
  }

  /** Using a key and then deleting it leaves the order as deleting it alone would. */
  lemma {:induction false} RemoveKeyAfterUse(order: seq<string>, k: string)
    ensures RemoveKey(RemoveKey(order, k) + [k], k) == RemoveKey(order, k)
  {
    var q := RemoveKey(order, k);
    RemoveKeyAppended(q, k);
  }

  lemma {:induction false} RemoveKeyAppended(q: seq<string>, k: string)
    requires k !in q
    ensures RemoveKey(q + [k], k) == q
  {
    if q == [] {
      assert [] + [k] == [k];
    } else {
      assert (q + [k])[1..] == q[1..] + [k];
      RemoveKeyAppended(q[1..], k);
    }
  }

  /** Appending a new key keeps the order free of repetitions. */
  lemma DistinctAppend(q: seq<string>, k: string)
    requires Distinct(q) && k !in q
    ensures Distinct(q + [k])
  {
  }

  /** Cached rows carry their own slug and the id of the row stored under it. */
  ghost predicate Mirrors(entries: map<string, CacheEntry>, rows: map<string, UrlRow>) {
    forall s :: s in entries ==> s in rows && entries[s].record.slug == s && entries[s].record.id == rows[s].id
  }

  /** Rows that keep their slug and id keep the cache consistent with them. */
  lemma MirrorsKeepIds(entries: map<string, CacheEntry>, rows: map<string, UrlRow>, rows': map<string, UrlRow>)
    requires Mirrors(entries, rows)
    requires forall s :: s in rows ==> s in rows' && rows'[s].id == rows[s].id
    ensures Mirrors(entries, rows')
  {
  }

  /** `slug` is the most recently used key. */
  predicate MostRecent(order: seq<string>, slug: string) {
    |order| > 0 && order[|order| - 1] == slug
  }

  /** Every entry other than `slug` survives unchanged, except the least
      recently used one when `slug` was new and the cache was full. */
  ghost predicate KeepsOthers(before: map<string, CacheEntry>, order: seq<string>,
                              after: map<string, CacheEntry>, slug: string)
  {
    forall s :: s in before && s != slug ==>
      (s in after && after[s] == before[s])
      || (slug !in before && |order| == MaxItems && s == order[0])
  }

  /** The entries and order of use after `cache.set(slug, e)`: a held key
      is replaced and becomes the most recently used; a new key evicts the
      least recently used entry when the cache is full. */
  function SetState(entries: map<string, CacheEntry>, order: seq<string>, slug: string, e: CacheEntry)
    : (after: (map<string, CacheEntry>, seq<string>))
    ensures slug in after.0 && after.0[slug] == e && MostRecent(after.1, slug)
    ensures after.0.Keys <= entries.Keys + {slug}
  {
    if slug in entries then (entries[slug := e], RemoveKey(order, slug) + [slug])
    else if |order| < MaxItems then (entries[slug := e], order + [slug])
    else ((entries - {order[0]})[slug := e], order[1..] + [slug])
  }

  /** The entries and order of use `getLink` leaves behind when it answers
      `r`: the slug is dropped and, when the link is answered, set again
      with the computed time to live as the most recently used key. */
  function AfterGetLink(entries: map<string, CacheEntry>, order: seq<string>, slug: string,
                        r: Option<UrlRow>, now: int): (map<string, CacheEntry>, seq<string>)
  {
    var entries', order' := entries - {slug}, RemoveKey(order, slug);
    if r.None? then (entries', order')
    else SetState(entries', order', slug, CacheEntry(r.value, CalculateOptimalTtl(r.value.expirationDate, now), now))
  }

  /** What `getLink` leaves behind: with no answer only the slug is gone;
      with one, the slug holds the answer as the most recently used key and
      every other entry survives unchanged, except the least recently used
      one when the slug was new and the cache was full. */
  lemma AfterGetLinkKeepsOthers(entries: map<string, CacheEntry>, order: seq<string>, slug: string,
                                r: Option<UrlRow>, now: int)
    requires Distinct(order) && |order| <= MaxItems && forall s :: s in entries <==> s in order
    ensures var (entries', order') := AfterGetLink(entries, order, slug, r, now);
            && (r.None? ==> entries' == entries - {slug} && slug !in order')
            && (r.Some? ==> MostRecent(order', slug) && slug in entries' && entries'[slug].record == r.value
                            && entries'.Keys <= entries.Keys + {slug})
            && KeepsOthers(entries, order, entries', slug)
  {
    var q := RemoveKey(order, slug);
    if r.Some? && |q| >= MaxItems {
      assert slug !in order;
    }
  }

  /** A `cache.get(slug)` (hit or miss) followed by `cache.set(slug, e)`
      ends where setting the slug after dropping it would. */
  lemma GetThenSet(e0: map<string, CacheEntry>, q0: seq<string>,
                   e1: map<string, CacheEntry>, q1: seq<string>, slug: string, e: CacheEntry)
    requires Distinct(q0) && |q0| <= MaxItems && forall s :: s in e0 <==> s in q0
    requires (e1 == e0 - {slug} && q1 == RemoveKey(q0, slug))
             || (slug in e0 && slug in e1 && e1 - {slug} == e0 - {slug} && q1 == RemoveKey(q0, slug) + [slug])
    ensures SetState(e1, q1, slug, e) == SetState(e0 - {slug}, RemoveKey(q0, slug), slug, e)
  {
    if slug in e1 {
      var q := RemoveKey(q0, slug);
      RemoveKeyAppended(q, slug);
      assert |q| == |q0| - 1;
      OverwriteSameOthers(e1, e0, slug, e);
    }
  }

  lemma OverwriteSameOthers(e1: map<string, CacheEntry>, e0: map<string, CacheEntry>, slug: string, e: CacheEntry)
    requires e1 - {slug} == e0 - {slug}
    ensures e1[slug := e] == (e0 - {slug})[slug := e]
  {
    var lhs, rhs := e1[slug := e], (e0 - {slug})[slug := e];
    forall k | k in lhs ensures k in rhs && lhs[k] == rhs[k] {
      if k != slug {
        assert k in e1 - {slug};
      }
    }
    assert lhs.Keys == rhs.Keys;
  }

  class UrlCache {
    /** The database that `fetchFromDatabase` reads. */
    const store: Store
    var entries: map<string, CacheEntry>
    /** Keys in order of use, least recently used first. */
    var recency: seq<string>

    ghost predicate Valid()
      reads this, store
    {
      Distinct(recency) && |recency| <= MaxItems
      && (forall s :: s in entries <==> s in recency)
      && Mirrors(entries, store.rows)
    }

    constructor (store: Store)
      ensures Valid()
      ensures this.store == store && entries == map[] && recency == []
    {
      this.store := store;
      entries := map[];
      recency := [];
    }

    /** The row a live (not stale) entry holds for `slug`. */
    function CacheHit(slug: string, now: int): Option<UrlRow>
      reads this
    {
      if slug in entries && !IsStale(entries[slug], now) then Some(entries[slug].record) else None
    }

    /** The row `fetchFromDatabase` returns: the stored one, or null when
        there is none or the query throws. */
    function Fetched(slug: string): Option<UrlRow>
      reads store
    {
      if store.reachable && slug in store.rows then Some(store.rows[slug]) else None
    }

    /** `cache.size`: every held entry, stale or not, counts. */
    lemma SizeIsLength()
      requires Valid()
      ensures |entries| == |recency| <= MaxItems
    {
      assert entries.Keys == Elements(recency);
      DistinctCardinality(recency);
    }

    /** `cache.get(slug)` with `updateAgeOnGet`: a live entry is returned,
        restarts its time to live and becomes the most recently used; a stale
        one is dropped. */
    method Get(slug: string, now: int) returns (r: Option<UrlRow>)
      requires Valid()
      modifies this
      ensures Valid()
      ensures r == old(CacheHit(slug, now))
      ensures r.Some? ==> entries == old(entries)[slug := old(entries)[slug].(start := now)]
                          && recency == RemoveKey(old(recency), slug) + [slug]
      ensures r.None? ==> entries == old(entries) - {slug} && recency == RemoveKey(old(recency), slug)
      ensures r.Some? ==> r.value.slug == slug && slug in store.rows && r.value.id == store.rows[slug].id
      ensures entries - {slug} == old(entries) - {slug}
    {
      if slug !in entries {
        assert slug !in recency;
        return None;
      }
      var e := entries[slug];
      if IsStale(e, now) {
        entries := entries - {slug};
        recency := RemoveKey(recency, slug);
        return None;
      }
      entries := entries[slug := e.(start := now)];
      recency := RemoveKey(recency, slug) + [slug];
      r := Some(e.record);
    }

    /** `cache.set(slug, record, { ttl })`: a held key is replaced and
        becomes the most recently used; a new key evicts the least recently
        used entry when the cache is full. */
    method Set(slug: string, record: UrlRow, ttl: int, now: int)
      requires Valid()
      requires record.slug == slug && slug in store.rows && record.id == store.rows[slug].id
      modifies this
      ensures Valid()
      ensures slug in old(entries) ==>
                entries == old(entries)[slug := CacheEntry(record, ttl, now)]
                && recency == RemoveKey(old(recency), slug) + [slug]
      ensures slug !in old(entries) && |old(recency)| < MaxItems ==>
                entries == old(entries)[slug := CacheEntry(record, ttl, now)]
                && recency == old(recency) + [slug]
      ensures slug !in old(entries) && |old(recency)| == MaxItems ==>
                entries == (old(entries) - {old(recency)[0]})[slug := CacheEntry(record, ttl, now)]
                && recency == old(recency)[1..] + [slug]
    {
      var e := CacheEntry(record, ttl, now);
      if slug in entries {
        DistinctAppend(RemoveKey(recency, slug), slug);
        entries := entries[slug := e];
        recency := RemoveKey(recency, slug) + [slug];
      } else if |recency| == MaxItems {
        var victim := recency[0];
        assert recency[1..] == RemoveKey(recency, victim);
        DistinctAppend(recency[1..], slug);
        entries := (entries - {victim})[slug := e];
        recency := recency[1..] + [slug];
      } else {
        DistinctAppend(recency, slug);
        entries := entries[slug := e];
        recency := recency + [slug];
      }
    }

    /** `cache.delete(slug)`. */
    method Delete(slug: string)
      requires Valid()
      modifies this
      ensures Valid()
      ensures entries == old(entries) - {slug} && recency == RemoveKey(old(recency), slug)
    {
      entries := entries - {slug};
      recency := RemoveKey(recency, slug);
    }

    /** `fetchFromDatabase`: a store error is swallowed and reads as "not found". */
    method FetchFromDatabase(slug: string) returns (r: Option<UrlRow>)
      requires store.Valid()
      modifies store
      ensures store.rows == old(store.rows) && store.nextId == old(store.nextId)
      ensures store.lookups == old(store.lookups) + 1
      ensures r == Fetched(slug)
      ensures r.Some? ==> r.value.slug == slug
    {
      var found := store.FindBySlug(slug);
      if found.Failure? {
        return None;
      }
      r := found.value;
    }

    /** `updateCacheEntry`: caches the row for at most the default time and
        never past its expiration. */
    method UpdateCacheEntry(slug: string, record: UrlRow, now: int)
      requires Valid()
      requires record.slug == slug && slug in store.rows && record.id == store.rows[slug].id
      modifies this
      ensures Valid()
      ensures entries.Keys <= old(entries).Keys + {slug}
      ensures slug in entries && entries[slug] == CacheEntry(record, CalculateOptimalTtl(record.expirationDate, now), now)
      ensures MostRecent(recency, slug)
      ensures KeepsOthers(old(entries), old(recency), entries, slug)
      ensures (entries, recency)
              == SetState(old(entries), old(recency), slug,
                          CacheEntry(record, CalculateOptimalTtl(record.expirationDate, now), now))
    {
      Set(slug, record, CalculateOptimalTtl(record.expirationDate, now), now);
    }

    /** `getLink`: answers from the cache, or on a miss from the store;
        an expired link is evicted and answered with null, a live one is
        (re)cached with a time to live that ends no later than its expiration. */
    method GetLink(slug: string, now: int) returns (r: Option<UrlRow>)
      requires Valid() && store.Valid()
      modifies this, store
      ensures Valid()
      // The store is queried once on a miss and not at all on a hit ...
      ensures store.rows == old(store.rows) && store.nextId == old(store.nextId)
      ensures store.lookups == old(store.lookups) + (if old(CacheHit(slug, now)).None? then 1 else 0)
      // ... and the cache ends exactly as AfterGetLink says.
      ensures (entries, recency) == AfterGetLink(old(entries), old(recency), slug, r, now)
      ensures r == LinkOutcome(old(CacheHit(slug, now)), Fetched(slug), now)
      ensures r.Some? ==> r.value.slug == slug && slug in store.rows && r.value.id == store.rows[slug].id
      ensures r.Some? ==>
                slug in entries
                && entries[slug] == CacheEntry(r.value, CalculateOptimalTtl(r.value.expirationDate, now), now)
                && 0 <= entries[slug].ttl <= DefaultTtlMs
                && MostRecent(recency, slug)
                && entries.Keys <= old(entries).Keys + {slug}
      ensures r.Some? ==> KeepsOthers(old(entries), old(recency), entries, slug)
      ensures r.None? ==> entries == old(entries) - {slug} && recency == RemoveKey(old(recency), slug)
    {
      ghost var entries0, recency0 := entries, recency;
      var cached := Get(slug, now);
      ghost var afterGet, recencyAfterGet := entries, recency;
      var url := cached;
      if cached.None? {
        url := FetchFromDatabase(slug);
      }
      AfterGetLinkKeepsOthers(entries0, recency0, slug, LinkOutcome(cached, url, now), now);
      if url.None? {
        return None;
      }
      if IsExpired(url.value, now) {
        Delete(slug);
        RemoveKeyAfterUse(recency0, slug);
        return None;
      }
      UpdateCacheEntry(slug, url.value, now);
      GetThenSet(entries0, recency0, afterGet, recencyAfterGet, slug, entries[slug]);
      r := url;
    }

    /** `deleteFromCache`. */
    method DeleteFromCache(slug: string)
      requires Valid()
      modifies this
      ensures Valid()
      ensures slug !in entries
      ensures entries == old(entries) - {slug} && recency == RemoveKey(old(recency), slug)
    {
      Delete(slug);
    }

    /** `clear`. */
    method Clear()
      requires Valid()
      modifies this
      ensures Valid()
      ensures entries == map[] && recency == []
    {
      entries := map[];
      recency := [];
    }

    /** `getStats`: the number of entries held, the capacity and the default time to live. */
    method GetStats() returns (stats: CacheStats)
      requires Valid()
      ensures stats.size == |entries| && stats.size <= stats.max
      ensures stats.max == MaxItems && stats.ttl == DefaultTtlMs
    {
      SizeIsLength();
      stats := CacheStats(|recency|, MaxItems, DefaultTtlMs);
    }
  }
}
