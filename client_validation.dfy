/** The form validators of client/src/features/shortener/utils/validation.ts.
    Each answers `None` (JavaScript `undefined`) for an acceptable field, or
    the message to show under it. An empty string is falsy and therefore
    always "not given". */
module FormValidation {
  import opened Common
  import opened Platform
  import opened SlugUtils
  import UrlValidation

  const UrlRequired := "URL is required"
  const UrlMalformed := "Please enter a valid URL (e.g., https://example.com)"
  const SlugWrongLength := "Slug must be exactly 8 characters"
  const SlugBadChars := "Slug can only contain letters and numbers"
  const ExpirationNotFuture := "Expiration date must be in the future"
  const UtmTooLong := "Maximum 100 characters"
  const UtmBadChars := "Only letters, numbers, dots, hyphens, and underscores allowed"

  const UtmMaxLength: nat := 100

  /** `validateUrl`: required, and the URL constructor must accept it. */
  function ValidateUrl(url: string, parse: UrlParser): (r: Option<string>)
    ensures r.None? <==> url != "" && ParsesAsUrl(parse, url)
    ensures url == "" ==> r == Some(UrlRequired)
    ensures url != "" && r.Some? ==> r == Some(UrlMalformed)
  {
    if url == "" then Some(UrlRequired)
    else if parse(url).None? then Some(UrlMalformed)
    else None
  }

  /** `validateSlug`: optional; otherwise the length, counted in UTF-16
      code units as `slug.length` does, is checked before the characters. */
  function ValidateSlug(slug: string): (r: Option<string>)
    ensures r.None? <==> slug == "" || IsValidSlug(slug)
    ensures slug != "" && Utf16Length(slug) != SlugLength ==> r == Some(SlugWrongLength)
    ensures Utf16Length(slug) == SlugLength && r.Some? ==> r == Some(SlugBadChars)
  {
    if slug == "" then None
    else if Utf16Length(slug) != SlugLength then Some(SlugWrongLength)
    else if !(forall i :: 0 <= i < |slug| ==> IsAlnum(slug[i])) then Some(SlugBadChars)
    else
      assert forall i :: 0 <= i < |slug| ==> slug[i] as int < 0x1_0000;
      None
  }

  /** Four characters outside the Basic Multilingual Plane have length 8,
      so they pass the length check and fail on the characters. */
  lemma AstralSlugFailsOnCharacters()
    ensures ValidateSlug(seq(4, _ => '\U{1F600}')) == Some(SlugBadChars)
  {
    var s := seq(4, _ => '\U{1F600}');
    assert forall i :: 0 <= i < |s| ==> s[i] as int >= 0x1_0000;
    assert !IsAlnum(s[0]);
  }

  /** `validateExpirationDate`: optional; a date not after `now` is refused,
      and one that does not parse is not (`NaN <= now` is false). */
  function ValidateExpirationDate(dateStr: string, parseDate: DateParser, now: int): (r: Option<string>)
    ensures r.None? <==> dateStr == "" || parseDate(dateStr).None? || parseDate(dateStr).value > now
    ensures r.Some? ==> r == Some(ExpirationNotFuture)
  {
    if dateStr == "" then None
    else match parseDate(dateStr)
      case Some(t) => if t <= now then Some(ExpirationNotFuture) else None
      case None => None
  }

  /** The characters `[a-zA-Z0-9._-]`. */
  predicate IsUtmChar(c: char) {
    IsAlnum(c) || c == '.' || c == '_' || c == '-'
  }

  /** `validateUtmField`: optional; at most 100 UTF-16 code units, checked before the characters. */
  function ValidateUtmField(value: string): (r: Option<string>)
    ensures r.None? <==> value == "" || (Utf16Length(value) <= UtmMaxLength
                                         && forall i :: 0 <= i < |value| ==> IsUtmChar(value[i]))
    ensures Utf16Length(value) > UtmMaxLength ==> r == Some(UtmTooLong)
    ensures value != "" && Utf16Length(value) <= UtmMaxLength && r.Some? ==> r == Some(UtmBadChars)
    // An accepted value is at most 100 characters long.
    ensures r.None? ==> |value| <= UtmMaxLength
  {
    if value == "" then None
    else if Utf16Length(value) > UtmMaxLength then Some(UtmTooLong)
    else if !(forall i :: 0 <= i < |value| ==> IsUtmChar(value[i])) then Some(UtmBadChars)
    else None
  }

  /** A field of exactly 100 allowed characters is accepted. */
  lemma UtmFieldAtLimit()
    ensures ValidateUtmField(seq(UtmMaxLength, _ => 'a')).None?
    ensures ValidateUtmField(seq(UtmMaxLength + 1, _ => 'a')) == Some(UtmTooLong)
  {
    var v := seq(UtmMaxLength, _ => 'a');
    assert forall i :: 0 <= i < |v| ==> v[i] == 'a';
    var w := seq(UtmMaxLength + 1, _ => 'a');
    assert forall i :: 0 <= i < |w| ==> w[i] as int < 0x1_0000;
  }

  /** Sixty characters outside the Basic Multilingual Plane are 120 code
      units: too long, although there are fewer than 100 of them. */
  lemma AstralUtmFieldTooLong()
    ensures ValidateUtmField(seq(60, _ => '\U{1F600}')) == Some(UtmTooLong)
  {
    var v := seq(60, _ => '\U{1F600}');
    assert forall i :: 0 <= i < |v| ==> v[i] as int >= 0x1_0000;
  }

  /** The form's three checks accept exactly the bodies that the server's
      guard chain hands on, when both read the same URL parser, date parser
      and clock and every field is sent as typed. */
  lemma FormAgreesWithServer(url: string, slug: string, dateStr: string,
                             parse: UrlParser, parseDate: DateParser, now: int)
    ensures (ValidateUrl(url, parse).None? && ValidateSlug(slug).None?
             && ValidateExpirationDate(dateStr, parseDate, now).None?)
            <==> UrlValidation.ValidateShortenRequest(
                   UrlValidation.ShortenBody(Some(url), Some(slug), Some(dateStr)), parse, parseDate, now)
                 == UrlValidation.Next
  {
  }

  /** A slug the form accepts is also accepted as a path parameter, unless it is empty. */
  lemma FormSlugIsRoutable(slug: string)
    requires slug != "" && ValidateSlug(slug).None?
    ensures UrlValidation.ValidateSlugParam(slug) == UrlValidation.Next
  {
  }
}
