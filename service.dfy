/** Link creation and tracking (server/src/services/url.service.ts): slug
    allocation with a bounded regeneration loop, the insert of the new row,
    resolution through the cache and the two counter increments. The
    increments are fire-and-forget in the source; here they take effect
    before the call returns, and their failures are swallowed as there. */
module UrlTracking {
  import opened Common
  import opened Platform
  import opened SlugUtils
  import opened UrlStore
  import opened CacheService

  /** `maxAttempts` in `generateUniqueSlug`. */
  const MaxAttempts: nat := 10

  /** The body `createShortenedUrl` receives; `slug` and `expirationDate`
      are optional and may be empty strings. */
  datatype CreateUrlDto = CreateUrlDto(originalUrl: string, slug: Option<string>, expirationDate: Option<string>)

  /** The columns the insert returns (`created_at` is left out). */
  datatype UrlResponse = UrlResponse(id: nat, originalUrl: string, slug: string, expirationDate: Option<int>)

  /** What the service throws. */
  datatype ServiceError =
    | SlugTaken(slug: string)    // validateSlugUniqueness
    | SlugsExhausted             // generateUniqueSlug
    | Database(cause: DbError)   // a store statement threw

  /** The message of an error the service raises itself. */
  function Message(e: ServiceError): string
    requires !e.Database?
  {
    match e
    case SlugTaken(s) => "Slug \"" + s + "\" already exists"
    case SlugsExhausted => "Failed to generate unique slug after multiple attempts"
  }

  /** The controller answers 409 for messages containing "already exists";
      a taken custom slug produces one. */
  lemma TakenSlugMessage(slug: string)
    ensures Includes(Message(SlugTaken(slug)), "already exists")
  {
    var prefix := "Slug \"" + slug + "\" ";
    assert Message(SlugTaken(slug)) == prefix + "already exists";
    OccursAtEnd(prefix, "already exists");
  }

  /** The candidates `generateUniqueSlug` drew, in order, against the taken
      slugs: every candidate but the last was taken, and the loop stopped
      either on a free candidate or after `MaxAttempts` regenerations. */
  ghost predicate RegenerationTrace(draws: seq<string>, taken: set<string>) {
    1 <= |draws| <= MaxAttempts + 1
    && (forall i :: 0 <= i < |draws| - 1 ==> draws[i] in taken)
    && (|draws| - 1 < MaxAttempts ==> draws[|draws| - 1] !in taken)
  }

  /** The verdict after the loop: `attempts` is the number of regenerations,
      and reaching the maximum throws whatever the last candidate was. */
  function GenerationOutcome(draws: seq<string>): Result<string, ServiceError>
    requires |draws| >= 1
  {
    var attempts := |draws| - 1;
    if attempts >= MaxAttempts then Failure(SlugsExhausted) else Success(draws[attempts])
  }

  /** A successful allocation returns the last candidate, which is free. */
  lemma GenerationSuccessIsFree(draws: seq<string>, taken: set<string>)
    requires RegenerationTrace(draws, taken)
    ensures GenerationOutcome(draws).Success? <==> |draws| <= MaxAttempts
    ensures GenerationOutcome(draws).Success? ==>
              GenerationOutcome(draws).value == draws[|draws| - 1] && GenerationOutcome(draws).value !in taken
  {
  }

  /** The loop throws after ten regenerations even when the eleventh
      candidate, which it did look up, is free. */
  lemma ExhaustionDespiteFreeCandidate(taken: string, free: string)
    requires taken != free
    ensures var draws := seq(MaxAttempts, _ => taken) + [free];
            RegenerationTrace(draws, {taken}) && draws[MaxAttempts] !in {taken}
            && GenerationOutcome(draws) == Failure(SlugsExhausted)
  {
    var draws := seq(MaxAttempts, _ => taken) + [free];
    assert forall i :: 0 <= i < |draws| - 1 ==> draws[i] == taken;
  }

  /** The row the store holds for a created link. */
  function CreatedRow(created: UrlResponse): UrlRow {
    UrlRow(created.id, created.originalUrl, created.slug, created.expirationDate, 0, 0)
  }

  class UrlService {
    const store: Store
    const cache: UrlCache

    ghost predicate Valid()
      reads this, store, cache
    {
      cache.store == store && store.Valid() && cache.Valid()
    }

    constructor (reachable: bool)
      ensures Valid() && fresh(store) && fresh(cache)
      ensures store.reachable == reachable && store.rows == map[] && cache.entries == map[]
    {
      var s := new Store(reachable);
      store := s;
      cache := new UrlCache(s);
    }

    /** `slugExists`: whether a row holds the slug; a store error propagates. */
    method SlugExists(slug: string) returns (r: Result<bool, ServiceError>)
      modifies store
      ensures store.rows == old(store.rows) && store.nextId == old(store.nextId)
      ensures store.lookups == old(store.lookups) + 1
      ensures store.reachable ==> r == Success(slug in store.rows)
      ensures !store.reachable ==> r == Failure(Database(Unavailable))
    {
      var found := store.FindBySlug(slug);
      if found.Failure? {
        return Failure(Database(found.error));
      }
      r := Success(found.value.Some?);
    }

    /** `validateSlugUniqueness`: throws when the slug is taken. */
    method ValidateSlugUniqueness(slug: string) returns (err: Option<ServiceError>)
      modifies store
      ensures store.rows == old(store.rows) && store.nextId == old(store.nextId)
      ensures store.lookups == old(store.lookups) + 1
      ensures !store.reachable ==> err == Some(Database(Unavailable))
      ensures store.reachable ==> (err.Some? <==> slug in store.rows)
      ensures store.reachable && err.Some? ==> err == Some(SlugTaken(slug))
    {
      var taken := SlugExists(slug);
      if taken.Failure? {
        return Some(taken.error);
      }
      err := if taken.value then Some(SlugTaken(slug)) else None;
    }

    /** `generateUniqueSlug`: draws a slug and redraws while it is taken,
        at most `MaxAttempts` times; `draws` records every candidate, and
        each candidate is looked up once. */
    method GenerateUniqueSlug() returns (r: Result<string, ServiceError>, ghost draws: seq<string>)
      modifies store
      ensures store.rows == old(store.rows) && store.nextId == old(store.nextId)
      ensures store.lookups == old(store.lookups) + |draws|
      ensures !store.reachable ==> r == Failure(Database(Unavailable))
      ensures store.reachable ==> RegenerationTrace(draws, store.rows.Keys) && r == GenerationOutcome(draws)
      ensures forall i :: 0 <= i < |draws| ==> IsValidSlug(draws[i])
      ensures r.Success? ==> IsValidSlug(r.value) && r.value !in store.rows
    {
      ghost var taken0 := store.rows.Keys;
      var slug := GenerateSlug();
      var attempts: nat := 0;
      draws := [slug];
      var taken := SlugExists(slug);
      if taken.Failure? {
        return Failure(taken.error), draws;
      }
      while taken.value && attempts < MaxAttempts
        invariant taken == Success(slug in taken0)
        invariant attempts <= MaxAttempts && |draws| == attempts + 1 && draws[attempts] == slug
        invariant forall i :: 0 <= i < attempts ==> draws[i] in taken0
        invariant forall i :: 0 <= i < |draws| ==> IsValidSlug(draws[i])
        invariant store.rows == old(store.rows) && store.nextId == old(store.nextId)
        invariant store.lookups == old(store.lookups) + |draws|
        decreases MaxAttempts - attempts
      {
        slug := GenerateSlug();
        attempts := attempts + 1;
        draws := draws + [slug];
        taken := SlugExists(slug);
      }
      if attempts >= MaxAttempts {
        return Failure(SlugsExhausted), draws;
      }
      r := Success(slug);
    }

    /** `createShortenedUrl`: a present custom slug is used as given and must
        be free; otherwise a slug is generated. The new row carries the URL
        and the expiration (or null), with both counters at zero. */
    method CreateShortenedUrl(dto: CreateUrlDto, toTimestamp: DateParser)
      returns (r: Result<UrlResponse, ServiceError>, ghost draws: seq<string>)
      requires Valid()
      modifies store
      ensures Valid()
      ensures r.Failure? ==> store.rows == old(store.rows)
      // An unreachable store fails every path, custom slug or generated.
      ensures !store.reachable ==> r == Failure(Database(Unavailable))
      ensures r.Success? ==>
                r.value.slug !in old(store.rows)
                && store.rows == old(store.rows)[r.value.slug := CreatedRow(r.value)]
                && r.value.originalUrl == dto.originalUrl
                && r.value.expirationDate
                   == (if Present(dto.expirationDate) then toTimestamp(dto.expirationDate.value) else None)
      ensures Present(dto.slug) ==> draws == [] && (r.Success? ==> r.value.slug == dto.slug.value)
      ensures Present(dto.slug) && store.reachable && dto.slug.value in old(store.rows) ==>
                r == Failure(SlugTaken(dto.slug.value))
      ensures !Present(dto.slug) && r.Success? ==> IsValidSlug(r.value.slug)
      ensures !Present(dto.slug) && store.reachable ==>
                RegenerationTrace(draws, old(store.rows).Keys)
                && (GenerationOutcome(draws).Failure? ==> r == Failure(SlugsExhausted))
      // When creation succeeds: a custom slug that is free and fits the
      // column, or a generated one, and an expiration that converts.
      ensures Present(dto.slug) ==>
                (r.Success? <==> store.reachable && dto.slug.value !in old(store.rows)
                                 && |dto.slug.value| <= SlugColumnWidth
                                 && (Present(dto.expirationDate) ==> toTimestamp(dto.expirationDate.value).Some?))
      ensures !Present(dto.slug) && store.reachable ==>
                (r.Success? <==> GenerationOutcome(draws).Success?
                                 && (Present(dto.expirationDate) ==> toTimestamp(dto.expirationDate.value).Some?))
                && (r.Success? ==> r.value.slug == GenerationOutcome(draws).value)
    {
      var slug: string;
      draws := [];
      if Present(dto.slug) {
        slug := dto.slug.value;
      } else {
        var generated;
        generated, draws := GenerateUniqueSlug();
        if generated.Failure? {
          return Failure(generated.error), draws;
        }
        slug := generated.value;
        assert |slug| == SlugColumnWidth && slug !in store.rows;
      }
      var err := ValidateSlugUniqueness(slug);
      assert Valid();
      if err.Some? {
        return Failure(err.value), draws;
      }
      var expiration := if Present(dto.expirationDate) then dto.expirationDate else None;
      var inserted := store.Insert(dto.originalUrl, slug, expiration, toTimestamp);
      if inserted.Failure? {
        return Failure(Database(inserted.error)), draws;
      }
      var row := inserted.value;
      MirrorsKeepIds(cache.entries, old(store.rows), store.rows);
      r := Success(UrlResponse(row.id, row.originalUrl, row.slug, row.expirationDate));
    }

    /** `incrementClickCountAsync`: a failed increment is logged and swallowed. */
    method IncrementClickCountAsync(id: nat)
      requires Valid()
      modifies store
      ensures Valid() && store.lookups == old(store.lookups)
      ensures store.rows
              == if store.reachable && forall s :: (s in old(store.rows) && old(store.rows)[s].id == id)
                                                  ==> old(store.rows)[s].clickCount < Int4Max
                 then IncrementedById(old(store.rows), id, ClickCount)
                 else old(store.rows)
      // Ids are unique: the row with that id, if any, is the only one that changes.
      ensures forall slug :: slug in old(store.rows) && old(store.rows)[slug].id == id ==>
                store.rows == if store.reachable && old(store.rows)[slug].clickCount < Int4Max
                              then old(store.rows)[slug := Bumped(old(store.rows)[slug], ClickCount)]
                              else old(store.rows)
    {
      var ok := store.IncrementWhereId(id, ClickCount);
      MirrorsKeepIds(cache.entries, old(store.rows), store.rows);
      forall slug | slug in old(store.rows) && old(store.rows)[slug].id == id
        ensures store.rows == if store.reachable && old(store.rows)[slug].clickCount < Int4Max
                              then old(store.rows)[slug := Bumped(old(store.rows)[slug], ClickCount)]
                              else old(store.rows)
      {
        IncrementByIdTouchesOneRow(old(store.rows), old(store.nextId), slug, ClickCount);
      }
    }

    /** `incrementExpiredAccessCountAsync`: as above, on the row with that slug. */
    method IncrementExpiredAccessCountAsync(slug: string)
      requires Valid()
      modifies store
      ensures Valid() && store.lookups == old(store.lookups)
      ensures store.rows
              == if store.reachable && slug in old(store.rows) && old(store.rows)[slug].expiredAccessCount < Int4Max
                 then old(store.rows)[slug := Bumped(old(store.rows)[slug], ExpiredAccessCount)]
                 else old(store.rows)
    {
      var ok := store.IncrementWhereSlug(slug, ExpiredAccessCount);
      MirrorsKeepIds(cache.entries, old(store.rows), store.rows);
    }

    /** `getAndTrackUrl`: resolves the slug through the cache and, on a hit,
        adds one click to that link's row. */
    method GetAndTrackUrl(slug: string, now: int) returns (r: Option<UrlRow>)
      requires Valid()
      modifies cache, store
      ensures Valid()
      ensures r == LinkOutcome(old(cache.CacheHit(slug, now)), old(cache.Fetched(slug)), now)
      ensures r.None? ==> store.rows == old(store.rows)
      ensures r.Some? ==>
                slug in old(store.rows) && r.value.id == old(store.rows)[slug].id
                && store.rows
                   == if store.reachable && old(store.rows)[slug].clickCount < Int4Max
                      then old(store.rows)[slug := Bumped(old(store.rows)[slug], ClickCount)]
                      else old(store.rows)
      ensures r.Some? ==> slug in cache.entries && cache.entries[slug].record == r.value
      // The cache ends as getLink leaves it; the store is queried only on a miss.
      ensures (cache.entries, cache.recency) == AfterGetLink(old(cache.entries), old(cache.recency), slug, r, now)
      ensures store.lookups == old(store.lookups) + (if old(cache.CacheHit(slug, now)).None? then 1 else 0)
    {
      r := cache.GetLink(slug, now);
      if r.None? {
        return;
      }
      IncrementClickCountAsync(r.value.id);
    }

    /** `trackExpiredAccess`: never throws. */
    method TrackExpiredAccess(slug: string)
      requires Valid()
      modifies store
      ensures Valid() && store.lookups == old(store.lookups)
      ensures store.rows
              == if store.reachable && slug in old(store.rows) && old(store.rows)[slug].expiredAccessCount < Int4Max
                 then old(store.rows)[slug := Bumped(old(store.rows)[slug], ExpiredAccessCount)]
                 else old(store.rows)
    {
      IncrementExpiredAccessCountAsync(slug);
    }
  }
}
