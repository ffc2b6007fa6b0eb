/** The request guards of server/src/middleware/url-validation.middleware.ts.
    Each guard chain either answers the request itself (`Respond`) or hands
    it on with `next()` (`Next`); the datatype makes "exactly one of the two"
    hold by construction. */
module UrlValidation {
  import opened Common
  import opened Platform
  import opened SlugUtils

  /** The fields of a `POST /api/shorten` body that the guard reads;
      `None` is a missing or `null` field. */
  datatype ShortenBody = ShortenBody(originalUrl: Option<string>, slug: Option<string>,
                                     expirationDate: Option<string>)

  datatype Verdict = Next | Respond(status: nat, error: string)

  const UrlRequired := "original_url is required"
  const UrlInvalid := "original_url must be a valid URL"
  const SlugInvalid := "slug must be 8 alphanumeric characters"
  const ExpirationNotFuture := "expiration_date must be in the future"
  const SlugParamInvalid := "Invalid slug format"

  /** The expiration guard fires only for a present date whose time is known
      and not after `now`; an unparseable date (`NaN <= now` is false) slips through. */
  predicate ExpirationInPast(parseDate: DateParser, e: Option<string>, now: int) {
    Present(e) && parseDate(e.value).Some? && parseDate(e.value).value <= now
  }

  /** `validateShortenRequest`: four guards, in order; the first that fails answers 400. */
  function ValidateShortenRequest(body: ShortenBody, parse: UrlParser, parseDate: DateParser,
                                  now: int): (v: Verdict)
    ensures v.Respond? ==> v.status == 400
    // The request is handed on exactly when every guard holds.
    ensures v == Next <==>
              Present(body.originalUrl) && ParsesAsUrl(parse, body.originalUrl.value)
              && (Present(body.slug) ==> IsValidSlug(body.slug.value))
              && !ExpirationInPast(parseDate, body.expirationDate, now)
    // The guards are ordered: a missing URL is reported whatever else is wrong, and so on.
    ensures !Present(body.originalUrl) ==> v == Respond(400, UrlRequired)
    ensures (Present(body.originalUrl) && !ParsesAsUrl(parse, body.originalUrl.value))
              ==> v == Respond(400, UrlInvalid)
    ensures v == Respond(400, SlugInvalid) <==>
              Present(body.originalUrl) && ParsesAsUrl(parse, body.originalUrl.value)
              && Present(body.slug) && !IsValidSlug(body.slug.value)
    ensures v == Respond(400, ExpirationNotFuture) ==> ExpirationInPast(parseDate, body.expirationDate, now)
    // A date equal to now is refused; an unparseable one is not.
    ensures Present(body.expirationDate) && parseDate(body.expirationDate.value) == Some(now) ==> v != Next
    ensures (Present(body.expirationDate) && parseDate(body.expirationDate.value).None?)
              ==> v != Respond(400, ExpirationNotFuture)
  {
    if !Present(body.originalUrl) then Respond(400, UrlRequired)
    else if !ParsesAsUrl(parse, body.originalUrl.value) then Respond(400, UrlInvalid)
    else if Present(body.slug) && !IsValidSlug(body.slug.value) then Respond(400, SlugInvalid)
    else if ExpirationInPast(parseDate, body.expirationDate, now) then Respond(400, ExpirationNotFuture)
    else Next
  }

  /** `validateSlugParam`: `GET /:slug` goes on exactly for a well-formed slug. */
  function ValidateSlugParam(slug: string): (v: Verdict)
    ensures v == Next <==> IsValidSlug(slug)
    ensures v != Next ==> v == Respond(400, SlugParamInvalid)
    ensures |slug| != SlugLength ==> v == Respond(400, SlugParamInvalid)
  {
    if !IsValidSlug(slug) then Respond(400, SlugParamInvalid) else Next
  }
}
