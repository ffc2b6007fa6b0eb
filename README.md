# URL shortener core, modelled in Dafny

This project models the core of a URL shortener with an Express/knex server and a React client. The server parts are:

- the **slug cache** in front of the database (`getLink` with passive expiry and a TTL capped by the link's expiration);
- the **creation and tracking service** (custom-slug uniqueness, the bounded slug regeneration loop, the insert, and fire-and-forget counter increments);
- the **UTM helpers** (URLSearchParams `set()` semantics as in section 6.2 of the WHATWG URL Standard, and the `isValidUtmParams` shape check);
- the **slug rules** and the **request guards** of the Express middleware.

The client parts are:

- the **shortener form validators**, `validateForm` and the payload that `handleSubmit` shapes;
- the **click analytics**: referrer and device classification, relative-time buckets, and the sorted referrer statistics.

Everything foreign becomes a parameter, so each property is proved for every such behaviour:

- The WHATWG URL parser (`new URL(s)`) is `UrlParser = string -> Option<Url>`.
- JavaScript date parsing (`new Date(s).getTime()`) is `DateParser = string -> Option<int>`, where `None` is `NaN`.
- `Date.prototype.toISOString` is a function `int -> string`.
- The clock is an integer `now` in milliseconds, read once per call.
- nanoid is a nondeterministic choice of characters from its alphabet.

The database is a class `UrlStore.Store` holding the `urls` table as a map keyed by slug. Its constraints (unique slug of at most 8 characters, unique ids) are kept as an invariant. A store that is unreachable makes every statement fail. The cache is a class `CacheService.UrlCache` holding the lru-cache's entries and its order of use. The service is a class over both.

Behaviour of the code that the model states and proves, where it departs from what the names or comments suggest:

- `generateUniqueSlug` gives up after ten regenerations even when the last candidate, which it did look up, is free (`UrlTracking.ExhaustionDespiteFreeCandidate`).
- The `"localhost:3000"` entry of `KNOWN_SOURCES` never matches. The lookup uses `url.hostname`, which carries no port, so a referrer from the app itself is labelled `"localhost"` (`Analytics.LocalhostEntryUnreachable`, `Analytics.LocalhostReferrerIsNotThisApp`).
- The form's own slug rule (3–20 characters, `-` and `_` allowed) is looser than every server rule (exactly 8 alphanumerics). The form passes slugs the server then refuses (`Composer.FormSlugRuleIsLooser`, `Composer.SentPayloadMeetsServer`).
- An expiration date that does not parse passes both the server guard and the form check, because every comparison with `NaN` is false (`UrlValidation.ValidateShortenRequest`, `FormValidation.ValidateExpirationDate`).
- A date equal to `now` is refused as "not in the future", yet a cached link whose expiration equals `now` is still served: the expiry test is a strict `>` (`CacheService.LinkOutcome`).

## Model

| member | source | states |
|---|---|---|
| Common.Includes | client/src/features/analytics/utils/analytics.utils.ts:97-99 | `s.includes(pat)` holds exactly when `pat` occurs somewhere in `s` |
| Common.IndexOf | client/src/features/analytics/utils/analytics.utils.ts:88 | the answer is the first occurrence at or after `from`, and None means there is none |
| Common.ReplaceFirst | client/src/features/analytics/utils/analytics.utils.ts:88 | with a string pattern only the first occurrence is replaced, wherever it stands, and the rest of the string is kept; a pattern that does not occur leaves the string as it is |
| Common.ToLower | client/src/features/analytics/utils/analytics.utils.ts:98 | upper-case ASCII letters become lower-case, every other character is kept, and the length is kept |
| Common.Utf16Length | client/src/features/shortener/utils/validation.ts:15 | `.length` counts UTF-16 code units: a character outside the Basic Multilingual Plane counts twice, every other once |
| SlugUtils.AlphabetIsAlnum | server/src/utils/slug.utils.ts:9-12 | nanoid's alphabet has 62 distinct characters, and they are exactly the ASCII digits and letters |
| SlugUtils.IsValidSlug | server/src/utils/slug.utils.ts:39-41 | `^[0-9a-zA-Z]{8}$`: exactly 8 characters, each an ASCII digit or letter (its contract is `SlugUtils.ValidSlugIsAlphabetWord`) |
| SlugUtils.ValidSlugIsAlphabetWord | server/src/utils/slug.utils.ts:39-41 | `isValidSlug` holds iff the slug has 8 characters, all from the generator's alphabet; a `-` or `_` makes it invalid |
| SlugUtils.GenerateSlug | server/src/utils/slug.utils.ts:9-16 | every generated slug has 8 characters from the alphabet, so it satisfies `isValidSlug` |
| Platform.ParsesAsUrl | server/src/utils/slug.utils.ts:24-31 | `isValidUrl` holds exactly when the URL constructor accepts the string |
| Platform.Href | server/src/utils/utm.utils.ts:49 | `url.toString()`: the part before the query, the query text after a `?` when there is one, then the fragment; with neither it is the part before the query |
| Platform.HrefKeepsQueryText | server/src/utils/utm.utils.ts:49 | the serialized URL starts with the part before the query and carries the query text verbatim right after a `?` |
| UrlValidation.ValidateShortenRequest | server/src/middleware/url-validation.middleware.ts:13-42 | `next()` iff every guard holds; otherwise 400 with the first failing guard's message, in order URL required, URL valid, slug, expiration; a date equal to now is refused and an unparseable one passes |
| UrlValidation.ValidateSlugParam | server/src/middleware/url-validation.middleware.ts:54-61 | `next()` iff `isValidSlug`, otherwise 400 "Invalid slug format" |
| UtmUtils.SetParam | server/src/utils/utm.utils.ts:99 | after `set(n, v)` exactly one pair is named `n` and it holds `v`; all other pairs keep their order; a new name goes at the end |
| UtmUtils.FirstNamed | server/src/utils/utm.utils.ts:99 | the index of the first pair with the name: in range, named so, no earlier pair named so, and absent iff no pair has the name |
| UtmUtils.SetFirstPosition | server/src/utils/utm.utils.ts:99 | when the name occurs, the new pair stands where its first pair stood, and its later pairs are removed |
| UtmUtils.SetParamPosition | server/src/utils/utm.utils.ts:99 | `set` on a name that occurs gives the pairs before its first occurrence, the new pair, then the rest without that name |
| UtmUtils.SetParamOthers | server/src/utils/utm.utils.ts:99 | `set` does not change the count or the value of any other name |
| UtmUtils.SetAll | server/src/utils/utm.utils.ts:97-100 | the `forEach` of `set` calls, one per pair, in order (its contracts are the four lemmas below) |
| UtmUtils.SetAllKeepsOthers | server/src/utils/utm.utils.ts:94-101 | the pairs whose names are not written survive unchanged and in order |
| UtmUtils.SetAllSettles | server/src/utils/utm.utils.ts:94-101 | every written name ends up exactly once, holding the value of its last write |
| UtmUtils.SetAllFresh | server/src/utils/utm.utils.ts:94-101 | names that are all new are appended in the order written |
| UtmUtils.SetAllIdempotent | server/src/utils/utm.utils.ts:94-101 | writing the same pairs twice gives what writing them once gives |
| UtmUtils.ParamNameInjective | server/src/utils/utm.utils.ts:20-26 | different fields are written to different `utm_` parameters |
| UtmUtils.DefinedPairs | server/src/utils/utm.utils.ts:95-96 | undefined fields are skipped; at most one pair per entry; each field's parameter gets the field's last defined value, and only `utm_` parameters are produced |
| UtmUtils.DefinedPairsFromEntries | server/src/utils/utm.utils.ts:95-96 | every pair is `(utm_<field>, value)` for some defined entry |
| UtmUtils.DefinedPairsAllDefined | server/src/utils/utm.utils.ts:95-96 | when every entry is defined, the pairs are the entries' pairs, one each, in entry order |
| UtmUtils.DefinedPairsAppend | server/src/utils/utm.utils.ts:95-96 | the filter keeps entry order: the pairs of a concatenation are the pairs of each part in turn |
| UtmUtils.DefinedPairsDistinct | server/src/utils/utm.utils.ts:95-96 | entries for different fields give pairs with different names |
| UtmUtils.AppendUtmParamsToUrl | server/src/utils/utm.utils.ts:94-101 | only the query changes: scheme, host, port, path and fragment are kept; with nothing defined the URL is unchanged, query text included; otherwise the query text is re-serialized from the new pairs |
| UtmUtils.AppendUtmParamsFresh | server/src/utils/utm.utils.ts:36-38 | with distinct fields none of whose parameters the URL has, the defined fields are appended after the existing parameters, in entry order |
| UtmUtils.SearchParams.Set | server/src/utils/utm.utils.ts:99 | the parameter list becomes `set` applied to the old one, with the name once and the new value, and the URL's query text is rewritten from the new list |
| UtmUtils.AppendUtmParamsInPlace | server/src/utils/utm.utils.ts:94-101 | the in-place `forEach` of `set` calls leaves the parameters equal to the pure `SetAll` result; the query text is untouched iff nothing was set, and otherwise serializes the new list |
| UtmUtils.AppendUtmParams | server/src/utils/utm.utils.ts:40-54 | no UTM object, or a string the URL constructor refuses, returns the input unchanged; otherwise the rewritten URL is serialized, and with no defined field it is the URL serialized as parsed |
| UtmUtils.AppendUtmParamsToUrlSpec | server/src/utils/utm.utils.ts:94-101 | each defined field appears exactly once with its value, other parameters are preserved, and a second application changes nothing |
| UtmUtils.DocumentedExample | server/src/utils/utm.utils.ts:36-38 | `{source: "twitter", campaign: "promo"}` on `https://example.com/page` gives `?utm_source=twitter&utm_campaign=promo` |
| UtmUtils.DecimalString | server/src/utils/utm.utils.ts:85-86 | an array index written as a key is a non-empty string of digits |
| UtmUtils.HasOnlyValidKeys | server/src/utils/utm.utils.ts:85-87 | true iff every key is one of the five UTM keys |
| UtmUtils.AllValuesAreStrings | server/src/utils/utm.utils.ts:89-91 | true iff every value is a string |
| UtmUtils.IsValidUtmParams | server/src/utils/utm.utils.ts:63-69 | null and undefined pass; a primitive fails; an object passes iff all keys are UTM keys and all values are strings; only the empty array passes |
| UrlStore.Bumped | server/src/services/url.service.ts:105-121 | one counter goes up by one and every other column of the row is kept |
| UrlStore.IncrementByIdTouchesOneRow | server/src/services/url.service.ts:105-108 | ids are unique, so an increment by a row's id changes that row alone |
| UrlStore.InsertKeepsWellFormed | server/src/db/migrations/20250201120000_create-urls-table.js:17-28 | a new slug of at most 8 characters with a fresh id keeps slugs and ids unique |
| UrlStore.Store.constructor | server/src/db/migrations/20250201120000_create-urls-table.js:17-28 | an empty, well-formed table |
| UrlStore.Store.FindBySlug | server/src/services/url.service.ts:100-103 | fails iff the store is unreachable; otherwise finds the row iff the slug is stored, and returns that row; each call is one more store read and changes no row |
| UrlStore.Store.Insert | server/src/services/url.service.ts:32-44 | succeeds iff reachable, the date converts, the slug fits 8 characters and is new; then exactly one row is added, with both counters 0; on failure nothing changes |
| UrlStore.Store.IncrementWhereId | server/src/services/url.service.ts:105-108 | succeeds iff reachable and no counter would leave the 32-bit range; then each row with the id gains one, otherwise nothing changes |
| UrlStore.Store.IncrementWhereSlug | server/src/services/url.service.ts:114-117 | the same for the row with the slug, if any |
| CacheService.CalculateOptimalTtl | server/src/services/cache.service.ts:106-111 | the TTL never exceeds the default or the time left to expiry, equals one of the two, is the default without an expiration, and is at least 0 on a live link |
| CacheService.IsExpired | server/src/services/cache.service.ts:101-104 | a link without an expiration never expires; one with an expiration is expired only strictly after it (used by `LinkOutcome`) |
| CacheService.IsStale | server/src/services/cache.service.ts:24-28 | the lru-cache rule: an entry is stale once more than its TTL has passed since it was set or last read; a TTL of 0 never goes stale (used by `UrlCache.Get`) |
| CacheService.LinkOutcome | server/src/services/cache.service.ts:46-58 | a cached row wins over the store; an expired row gives null; a row whose expiration is now or later, or that has none, is returned; nothing anywhere gives null |
| CacheService.RemoveKey | server/src/services/cache.service.ts:52 | the order of use without exactly that key, still without repeats and one shorter when the key was there |
| CacheService.RemoveKeyAfterUse | server/src/services/cache.service.ts:47-52 | a read followed by a delete leaves the order of use as the delete alone would |
| CacheService.SetState | server/src/services/cache.service.ts:115 | `cache.set`: the key holds the new entry as the most recently used, and no key appears that was not there or is not the one set |
| CacheService.AfterGetLinkKeepsOthers | server/src/services/cache.service.ts:46-58 | after `getLink`, no answer leaves the cache minus the slug; an answer is cached as the most recently used; every other entry survives unchanged except a capacity eviction |
| CacheService.GetThenSet | server/src/services/cache.service.ts:47-56 | the `get` before the `set`, hit or miss, ends where dropping the slug and then setting it ends |
| CacheService.UrlCache.constructor | server/src/services/cache.service.ts:23-29 | an empty cache over the given store |
| CacheService.UrlCache.SizeIsLength | server/src/services/cache.service.ts:24-28 | the cache never holds more than 1000 entries |
| CacheService.UrlCache.Get | server/src/services/cache.service.ts:47 | returns a live entry and restarts its TTL, making it the most recently used; a stale entry is dropped; no other entry changes |
| CacheService.UrlCache.Set | server/src/services/cache.service.ts:115 | a held key is replaced and becomes the most recently used; a new key is added, evicting the least recently used entry when 1000 are held |
| CacheService.UrlCache.Delete | server/src/services/cache.service.ts:52 | removes exactly that key |
| CacheService.UrlCache.FetchFromDatabase | server/src/services/cache.service.ts:92-99 | the stored row, or null when there is none or the query throws; exactly one store read, and no row changes |
| CacheService.UrlCache.UpdateCacheEntry | server/src/services/cache.service.ts:113-116 | the cache ends as `SetState` with TTL `min(default, exp − now)`: the row is stored under its slug as the most recently used, and no other entry changes except a capacity eviction |
| CacheService.UrlCache.GetLink | server/src/services/cache.service.ts:46-58 | the store is read once on a miss and never on a hit; the answer is `LinkOutcome`; the cache, order of use included, ends as `AfterGetLink`; a live answer is re-cached with a TTL in 0..300000; a null answer leaves the cache minus that slug |
| CacheService.UrlCache.DeleteFromCache | server/src/services/cache.service.ts:67-69 | removes exactly that slug |
| CacheService.UrlCache.Clear | server/src/services/cache.service.ts:88-90 | the cache becomes empty |
| CacheService.UrlCache.GetStats | server/src/services/cache.service.ts:76-82 | reports the number of entries held (at most max), max 1000 and the default TTL 300000 |
| UrlTracking.TakenSlugMessage | server/src/services/url.service.ts:93-98 | the message for a taken slug contains "already exists" |
| UrlTracking.GenerationOutcome | server/src/services/url.service.ts:86-90 | ten regenerations throw "Failed to generate unique slug", whatever the last candidate; fewer return the last candidate (its contract is `UrlTracking.GenerationSuccessIsFree`) |
| UrlTracking.GenerationSuccessIsFree | server/src/services/url.service.ts:76-91 | the loop succeeds iff it stopped before ten regenerations, and then returns the last candidate, which is free |
| UrlTracking.ExhaustionDespiteFreeCandidate | server/src/services/url.service.ts:81-88 | ten taken candidates followed by a free one still end in "Failed to generate unique slug" |
| UrlTracking.UrlService.constructor | server/src/services/url.service.ts:19 | an empty store and an empty cache over it |
| UrlTracking.UrlService.SlugExists | server/src/services/url.service.ts:100-103 | whether a row holds the slug, by one store read; a store error propagates; no row changes |
| UrlTracking.UrlService.ValidateSlugUniqueness | server/src/services/url.service.ts:93-98 | throws the taken-slug error iff the slug is stored, by one store read; no row changes |
| UrlTracking.UrlService.GenerateUniqueSlug | server/src/services/url.service.ts:76-91 | every candidate but the last was taken, there are at most 11, each is looked up once, and the verdict is `GenerationOutcome`; a returned slug is valid and free |
| UrlTracking.UrlService.CreateShortenedUrl | server/src/services/url.service.ts:27-47 | an unreachable store makes creation fail with the database error, custom slug or not; a custom slug succeeds iff the store is reachable, the slug is free and fits the column, and the expiration converts; a generated one succeeds iff the loop found a free slug and the expiration converts, and is that slug; a taken custom slug gives "already exists"; success adds exactly one row with the URL and the expiration or null, failure adds none |
| UrlTracking.UrlService.IncrementClickCountAsync | server/src/services/url.service.ts:105-112 | the click counter of the row with the id gains one, and no other row changes, or nothing changes when the statement fails; it never throws |
| UrlTracking.UrlService.IncrementExpiredAccessCountAsync | server/src/services/url.service.ts:114-121 | the expired-access counter of the row with the slug gains one, or nothing changes; it never throws |
| UrlTracking.UrlService.GetAndTrackUrl | server/src/services/url.service.ts:56-64 | returns what `getLink` returns and leaves the cache as `AfterGetLink`; the store is read only on a miss; on null no row changes; on a hit only that link's click counter rises, by one, unless the store refuses the increment |
| UrlTracking.UrlService.TrackExpiredAccess | server/src/services/url.service.ts:72-74 | only that slug's expired-access counter rises, by one, and nothing is thrown |
| FormValidation.ValidateUrl | client/src/features/shortener/utils/validation.ts:1-11 | empty gives "URL is required"; a non-empty string passes iff the URL constructor accepts it |
| FormValidation.ValidateSlug | client/src/features/shortener/utils/validation.ts:13-22 | empty passes; a length other than 8 UTF-16 code units is reported before bad characters; it passes iff empty or `isValidSlug` |
| FormValidation.AstralSlugFailsOnCharacters | client/src/features/shortener/utils/validation.ts:15-19 | four emoji have length 8, so they pass the length check and are reported for their characters |
| FormValidation.ValidateExpirationDate | client/src/features/shortener/utils/validation.ts:24-32 | empty passes; a date at or before now is refused; a later or unparseable one passes |
| FormValidation.ValidateUtmField | client/src/features/shortener/utils/validation.ts:34-43 | empty passes; over 100 UTF-16 code units is reported first; otherwise it passes iff every character is in `[a-zA-Z0-9._-]` |
| FormValidation.UtmFieldAtLimit | client/src/features/shortener/utils/validation.ts:39-41 | exactly 100 allowed characters pass, 101 do not |
| FormValidation.AstralUtmFieldTooLong | client/src/features/shortener/utils/validation.ts:36-38 | sixty emoji are 120 code units and are reported as too long |
| FormValidation.FormAgreesWithServer | client/src/features/shortener/utils/validation.ts:1-32 | the three form checks pass iff the server's guards would call `next()` on the same fields |
| FormValidation.FormSlugIsRoutable | client/src/features/shortener/utils/validation.ts:13-22 | a non-empty slug the form accepts is accepted by `validateSlugParam` |
| Composer.ValidateUrl | client/src/features/shortener/components/URLComposer.tsx:22-32 | agrees with the shared `validateUrl` on every input |
| Composer.ValidateSlug | client/src/features/shortener/components/URLComposer.tsx:34-46 | empty passes; under 3 and over 20 UTF-16 code units are reported before characters; it passes iff 3–20 code units, all from `[a-zA-Z0-9-_]` |
| Composer.ServerSlugPassesForm | client/src/features/shortener/components/URLComposer.tsx:34-46 | every slug the server accepts passes the form |
| Composer.FormSlugRuleIsLooser | client/src/features/shortener/components/URLComposer.tsx:34-46 | "my-link" passes the form but fails the shared validator and `isValidSlug` |
| Composer.ValidateExpirationDate | client/src/features/shortener/components/URLComposer.tsx:48-56 | agrees with the shared `validateExpirationDate` on every input |
| Composer.ValidateForm | client/src/features/shortener/components/URLComposer.tsx:83-97 | the error record holds exactly the failing fields, and the result is true iff it is empty |
| Composer.FilterUtmParams | client/src/features/shortener/components/URLComposer.tsx:124-132 | no kept entry has an empty value |
| Composer.FilterUtmParamsMembers | client/src/features/shortener/components/URLComposer.tsx:124-132 | a kept entry is exactly a non-empty input with its key lower-cased |
| Composer.UtmJson | client/src/features/shortener/components/URLComposer.tsx:138-141 | the filtered entries become an object with one member each, in order, holding the entry's key and its value as a string |
| Composer.FormKeysLowerToValidKeys | client/src/features/shortener/components/URLComposer.tsx:68-74 | the five form keys lower-case to the server's UTM keys |
| Composer.FormUtmIsValidUtmParams | client/src/features/shortener/components/URLComposer.tsx:124-132 | whatever is typed, the UTM object sent passes the server's `isValidUtmParams` |
| Composer.SubmitOutcome | client/src/features/shortener/components/URLComposer.tsx:99-141 | what a submission does: blocked with the errors, a `toISOString` crash, or the shaped body (its contracts are the three lemmas below `HandleSubmit`) |
| Composer.HandleSubmit | client/src/features/shortener/components/URLComposer.tsx:99-141 | the step-by-step submission equals `SubmitOutcome`: blocked, a `toISOString` crash, or the shaped body |
| Composer.SubmitBlockedExactly | client/src/features/shortener/components/URLComposer.tsx:99-104 | no request is sent iff a check fails, and the errors name exactly the failing fields |
| Composer.SentPayloadShape | client/src/features/shortener/components/URLComposer.tsx:134-141 | a sent body has a parseable URL and no empty slug or expiration; `utm_params` is present only when non-empty, and then it is valid |
| Composer.SentPayloadMeetsServer | client/src/features/shortener/components/URLComposer.tsx:134-141 | when `toISOString` output parses back to the same instant, a sent body passes the server's guards iff its slug is absent or server-valid |
| Analytics.ParseReferrer | client/src/features/analytics/utils/analytics.utils.ts:84-93 | no referrer gives "Direct"; an unparseable one is returned as is; otherwise the cleaned host name is mapped through the known sources, falling back to itself |
| Analytics.CleanHostname | client/src/features/analytics/utils/analytics.utils.ts:88 | `hostname.replace("www.", "")`: the first "www." anywhere in the host name is removed (its contracts are `WwwPrefixIgnored` and `ReplaceFirstByNothing`) |
| Analytics.WwwPrefixIgnored | client/src/features/analytics/utils/analytics.utils.ts:88 | a leading "www." does not change the label |
| Analytics.ReplaceFirstByNothing | client/src/features/analytics/utils/analytics.utils.ts:88 | every character of the cleaned host name comes from the original host name |
| Analytics.LocalhostEntryUnreachable | client/src/features/analytics/utils/analytics.utils.ts:9-21 | a host name without ':' never cleans to "localhost:3000" |
| Analytics.LocalhostReferrerIsNotThisApp | client/src/features/analytics/utils/analytics.utils.ts:84-93 | a referrer on localhost:3000 is labelled "localhost", though its host is the "This App" key |
| Analytics.AnyKeyword | client/src/features/analytics/utils/analytics.utils.ts:97-99 | true iff some keyword occurs in the text |
| Analytics.ParseDevice | client/src/features/analytics/utils/analytics.utils.ts:95-102 | null or empty gives desktop; mobile iff the lower-cased agent contains one of the seven keywords |
| Analytics.ToLowerIdempotent | client/src/features/analytics/utils/analytics.utils.ts:98 | lower-casing twice is lower-casing once |
| Analytics.ParseDeviceIgnoresCase | client/src/features/analytics/utils/analytics.utils.ts:95-102 | the device class does not depend on letter case |
| Analytics.FormatRelativeTime | client/src/features/analytics/utils/analytics.utils.ts:37-50 | under 1 minute "Just now", under 60 minutes N minutes, under 24 hours N hours, under 7 days N days, else the absolute date; N is the floor of the elapsed time in that unit; an unparseable date gives the absolute form |
| Analytics.FutureIsJustNow | client/src/features/analytics/utils/analytics.utils.ts:40-45 | a date in the future reads "Just now" |
| Analytics.RoundPercent | client/src/features/analytics/utils/analytics.utils.ts:117 | the nearest integer to 100·value/total, halves up; 0 without clicks; within 0..100 |
| Analytics.Sources | client/src/features/analytics/utils/analytics.utils.ts:107-108 | the label of each click, in click order |
| Analytics.CountPositive | client/src/features/analytics/utils/analytics.utils.ts:109 | a label that occurs is counted at least once |
| Analytics.TallyStep | client/src/features/analytics/utils/analytics.utils.ts:107-110 | one more click adds one to its label's count, or adds the label at the end with count 1 |
| Analytics.TallyNames | client/src/features/analytics/utils/analytics.utils.ts:105-110 | the dictionary's keys are the labels that occur, each once |
| Analytics.TallyCounts | client/src/features/analytics/utils/analytics.utils.ts:105-110 | each count is the number of clicks with that label |
| Analytics.TallySum | client/src/features/analytics/utils/analytics.utils.ts:105-110 | the counts add up to the number of clicks |
| Analytics.TallyCorrect | client/src/features/analytics/utils/analytics.utils.ts:105-110 | the three facts above together |
| Analytics.TallySources | client/src/features/analytics/utils/analytics.utils.ts:105-110 | the `forEach` loop computes exactly the tally of the click labels |
| Analytics.Rows | client/src/features/analytics/utils/analytics.utils.ts:113-118 | one row per label, in dictionary order, with its count and rounded share |
| Analytics.RowsTotal | client/src/features/analytics/utils/analytics.utils.ts:112-118 | the rows' values add up to the counts' sum |
| Analytics.RowsProperties | client/src/features/analytics/utils/analytics.utils.ts:112-118 | the rows name every label once, each with its count (at least 1) and share |
| Analytics.InsertByValue | client/src/features/analytics/utils/analytics.utils.ts:119 | one insertion step keeps the multiset of rows plus the new one, and the total |
| Analytics.InsertSorted | client/src/features/analytics/utils/analytics.utils.ts:119 | inserting into a sorted list keeps it sorted |
| Analytics.InsertNames | client/src/features/analytics/utils/analytics.utils.ts:119 | inserting adds exactly the new name, and a new name keeps names distinct |
| Analytics.SortByValue | client/src/features/analytics/utils/analytics.utils.ts:119 | the sort is a permutation, keeps the total, and is non-increasing by value |
| Analytics.SortNames | client/src/features/analytics/utils/analytics.utils.ts:119 | sorting keeps the set of names and their distinctness |
| Analytics.SortKeepsRows | client/src/features/analytics/utils/analytics.utils.ts:119 | sorting moves rows without changing any |
| Analytics.CalculateReferrerStats | client/src/features/analytics/utils/analytics.utils.ts:104-120 | each label appears exactly once, with its number of clicks (at least 1) and its rounded share; sorted by value, non-increasing; values sum to the number of clicks; no clicks gives no rows |

## Left out

- Request bodies are modelled with string fields; a JSON body whose `slug` or `expiration_date` is a number or an object is not modelled.
- HTTP plumbing (routes, controller, status mapping) is not part of this model. The controller passes three arguments to the one-argument `getAndTrackUrl`; JavaScript ignores the extra two, and the model takes the slug alone.
- `handleExpiredUrl` is not routed, and no click event row is ever inserted. The model therefore has no clicks table; the analytics functions take the clicks as input.
- `appendUtmParams` is never called on the redirect path, and `createShortenedUrl` neither reads nor strips `utm_params`. The UTM helpers are modelled on their own.
- The database is an in-memory map. `created_at`, `updated_at` and the `utm_params` column are left out, ids are natural numbers instead of uuids, and database error messages are abstract `DbError` values. An unreachable store is fixed for the life of a `Store` object.
- Concurrency is not modelled: the fire-and-forget increments take effect before the call returns. A race between the uniqueness check and the insert (which would surface as `UniqueViolation`) cannot occur in the model.
- `Date.now()` is read twice in `getLink` (once by `isExpired`, once by `calculateOptimalTtl`); the model uses one `now` for both.
- CacheService.UrlCache.Get: models the lru-cache library only by its entries, order of use and staleness rule (a TTL of 0 means "never stale"); its timers, `allowStale` and size accounting are not modelled.
- Platform.EncodeQuery: the query serializer writes names and values as they are. The percent-encoding of the `application/x-www-form-urlencoded` serializer is not modelled. The exact WHATWG parsing rules are left to the parser parameter, which supplies both the pairs and the query text.
- Analytics.ParseReferrer: a cleaned host name that names an `Object.prototype` member, such as `constructor` or `__proto__`, makes `KNOWN_SOURCES[hostname]` return the inherited member instead of the host name. The model looks up only the dictionary's own keys.
- Analytics.SortByValue: the order among rows with equal values is not stated; only the permutation and the non-increasing order are.
- The store's `lookups` counter is a ghost count of the queries issued against it, so that how often a method reads the store can be stated. Nothing in the source keeps such a counter.
- Analytics.RoundPercent: computes `Math.round(value / total * 100)` in exact rational arithmetic; floating-point rounding of the quotient is not modelled.
- Common.ToLower: `toLowerCase` is modelled on ASCII letters only. Unicode case mapping is not modelled.
- Analytics.ParseDevice: lower-cases the user agent with the ASCII-only `Common.ToLower`; how non-ASCII letters in a user agent lower-case under Unicode is not modelled.
- UtmUtils.IsValidUtmParams: a `JObject` is a list of members and may repeat a key, which no JavaScript object can. For such a value the model checks every member, whereas `JSON.parse` would keep only the last one, so `{source: 5, source: "a"}` is refused by the model and accepted by the source. Every object a request body can produce has distinct keys, and on those the two agree.
- Analytics.CalculateReferrerStats: a label such as `"constructor"` that collides with an `Object.prototype` key, and the integer-like keys that `Object.entries` lists first, are not modelled. Labels are kept in first-seen order.
- `formatNumber`, `formatDate`, `formatDateTime` and the absolute date of `formatRelativeTime` are locale formatting; they are left out, and the absolute case is the `LocaleDate` bucket.
- Composer.HandleSubmit: the first ISO-with-offset string (URLComposer.tsx lines 114-118) is overwritten before use, so only its failure mode is kept: an unparseable date makes `toISOString` throw, which is modelled as `Crashed`. The request, the loading flag and the callbacks are left out.
- React state and rendering, the Axios clients and the toasts are not part of this model.
