/** The logic of the link form in
    client/src/features/shortener/components/URLComposer.tsx: its own copies
    of the field validators (whose slug rule differs from the rest of the
    system), `validateForm`, and the payload `handleSubmit` builds. The form
    state is passed in; the request itself is left out. */
module Composer {
  import opened Common
  import opened Platform
  import opened SlugUtils
  import FormValidation
  import UrlValidation
  import UtmUtils

  const SlugTooShort := "Slug must be at least 3 characters"
  const SlugTooLong := "Slug must be 20 characters or less"
  const SlugBadChars := "Slug can only contain letters, numbers, hyphens, and underscores"

  const MinSlugLength: nat := 3
  const MaxSlugLength: nat := 20

  /** `validateUrl` of the form: the same rule as the shared validator. */
  function ValidateUrl(url: string, parse: UrlParser): (r: Option<string>)
    ensures r == FormValidation.ValidateUrl(url, parse)
  {
    if url == "" then Some(FormValidation.UrlRequired)
    else match parse(url)
      case None => Some(FormValidation.UrlMalformed)
      case Some(_) => None
  }

  /** The characters `[a-zA-Z0-9-_]`. */
  predicate IsComposerSlugChar(c: char) {
    IsAlnum(c) || c == '-' || c == '_'
  }

  /** `validateSlug` of the form: optional; 3 to 20 UTF-16 code units,
      checked before the characters, which may include `-` and `_`. */
  function ValidateSlug(slug: string): (r: Option<string>)
    ensures r.None? <==> slug == "" || (MinSlugLength <= Utf16Length(slug) <= MaxSlugLength
                                        && forall i :: 0 <= i < |slug| ==> IsComposerSlugChar(slug[i]))
    ensures slug != "" && Utf16Length(slug) < MinSlugLength ==> r == Some(SlugTooShort)
    ensures Utf16Length(slug) > MaxSlugLength ==> r == Some(SlugTooLong)
    ensures MinSlugLength <= Utf16Length(slug) <= MaxSlugLength && r.Some? ==> r == Some(SlugBadChars)
    // An accepted slug has 3 to 20 characters.
    ensures r.None? && slug != "" ==> MinSlugLength <= |slug| <= MaxSlugLength
  {
    if slug == "" then None
    else if Utf16Length(slug) < MinSlugLength then Some(SlugTooShort)
    else if Utf16Length(slug) > MaxSlugLength then Some(SlugTooLong)
    else if !(forall i :: 0 <= i < |slug| ==> IsComposerSlugChar(slug[i])) then Some(SlugBadChars)
    else None
  }

  /** Every slug the server accepts passes the form's check. */
  lemma ServerSlugPassesForm(slug: string)
    requires IsValidSlug(slug)
    ensures ValidateSlug(slug).None?
  {
    assert forall i :: 0 <= i < |slug| ==> slug[i] as int < 0x1_0000;
  }

  /** The converse fails: the form passes "my-link", which the shared
      validator, the server's guards and the slug route all refuse. */
  lemma FormSlugRuleIsLooser()
    ensures ValidateSlug("my-link").None?
    ensures FormValidation.ValidateSlug("my-link") == Some(FormValidation.SlugWrongLength)
    ensures !IsValidSlug("my-link")
  {
    var s := "my-link";
    assert |s| == 7;
    assert forall i :: 0 <= i < |s| ==> IsComposerSlugChar(s[i]) && s[i] as int < 0x1_0000;
  }

  /** `validateExpirationDate` of the form: the same rule as the shared validator. */
  function ValidateExpirationDate(dateStr: string, parseDate: DateParser, now: int): (r: Option<string>)
    ensures r == FormValidation.ValidateExpirationDate(dateStr, parseDate, now)
  {
    if dateStr == "" then None
    else if parseDate(dateStr).Some? && parseDate(dateStr).value <= now then
      Some(FormValidation.ExpirationNotFuture)
    else None
  }

  /** The `ValidationErrors` record: a field is present only when its check failed. */
  datatype ValidationErrors = ValidationErrors(url: Option<string>, slug: Option<string>,
                                               expirationDate: Option<string>)

  /** `Object.keys(newErrors)`. */
  function ErrorKeys(e: ValidationErrors): seq<string> {
    (if e.url.Some? then ["url"] else [])
    + (if e.slug.Some? then ["slug"] else [])
    + (if e.expirationDate.Some? then ["expirationDate"] else [])
  }

  /** `validateForm`: fills the error record field by field, then reports
      whether it stayed empty. */
  method ValidateForm(url: string, slug: string, expirationDate: string,
                      parse: UrlParser, parseDate: DateParser, now: int)
    returns (ok: bool, errors: ValidationErrors)
    ensures errors == ValidationErrors(ValidateUrl(url, parse), ValidateSlug(slug),
                                       ValidateExpirationDate(expirationDate, parseDate, now))
    ensures ok <==> errors.url.None? && errors.slug.None? && errors.expirationDate.None?
  {
    errors := ValidationErrors(None, None, None);
    var urlError := ValidateUrl(url, parse);
    if urlError.Some? {
      errors := errors.(url := urlError);
    }
    var slugError := ValidateSlug(slug);
    if slugError.Some? {
      errors := errors.(slug := slugError);
    }
    var expirationError := ValidateExpirationDate(expirationDate, parseDate, now);
    if expirationError.Some? {
      errors := errors.(expirationDate := expirationError);
    }
    ok := |ErrorKeys(errors)| == 0;
  }

  /** One entry of the `utmParams` form state. */
  datatype UtmInput = UtmInput(key: string, value: string)

  /** The five UTM inputs of the form. */
  datatype UtmForm = UtmForm(source: string, medium: string, campaign: string, term: string, content: string)

  /** `Object.entries(utmParams)`: the keys in the order the state declares them. */
  function FormEntries(f: UtmForm): seq<UtmInput> {
    [UtmInput("Source", f.source), UtmInput("Medium", f.medium), UtmInput("Campaign", f.campaign),
     UtmInput("Term", f.term), UtmInput("Content", f.content)]
  }

  /** The `filter`/`reduce` step: entries with an empty value are dropped,
      the others keep their order with their key lower-cased. */
  function FilterUtmParams(entries: seq<UtmInput>): (r: seq<UtmInput>)
    ensures |r| <= |entries|
    ensures forall i :: 0 <= i < |r| ==> r[i].value != ""
  {
    if entries == [] then []
    else
      var rest := FilterUtmParams(entries[1..]);
      if entries[0].value == "" then rest
      else [UtmInput(ToLower(entries[0].key), entries[0].value)] + rest
  }

  /** A kept pair is exactly a non-empty entry with its key lower-cased. */
  lemma {:induction false} FilterUtmParamsMembers(entries: seq<UtmInput>, p: UtmInput)
    ensures p in FilterUtmParams(entries)
            <==> exists e :: e in entries && e.value != "" && p == UtmInput(ToLower(e.key), e.value)
  {
    if entries != [] {
      FilterUtmParamsMembers(entries[1..], p);
      assert forall e :: e in entries <==> e == entries[0] || e in entries[1..];
    }
  }

  /** The utm object as it travels in the request body. */
  function UtmJson(params: seq<UtmInput>): (v: UtmUtils.Json)
    ensures v.JObject? && |v.members| == |params|
    // Each entry becomes one member, in order, with its key and its value as a string.
    ensures forall i :: 0 <= i < |params| ==>
              v.members[i] == UtmUtils.Member(params[i].key, UtmUtils.JString(params[i].value))
  {
    UtmUtils.JObject(seq(|params|, i requires 0 <= i < |params| =>
                           UtmUtils.Member(params[i].key, UtmUtils.JString(params[i].value))))
  }

  lemma FormKeysLowerToValidKeys()
    ensures ToLower("Source") == "source" && ToLower("Medium") == "medium"
            && ToLower("Campaign") == "campaign" && ToLower("Term") == "term"
            && ToLower("Content") == "content"
  {
    assert ToLower("Source") == "source";
    assert ToLower("Medium") == "medium";
    assert ToLower("Campaign") == "campaign";
    assert ToLower("Term") == "term";
    assert ToLower("Content") == "content";
  }

  /** Whatever the user typed, the utm object the form sends passes the
      server's `isValidUtmParams`. */
  lemma FormUtmIsValidUtmParams(f: UtmForm)
    ensures UtmUtils.IsValidUtmParams(UtmJson(FilterUtmParams(FormEntries(f))))
  {
    var entries := FormEntries(f);
    var kept := FilterUtmParams(entries);
    var v := UtmJson(kept);
    FormKeysLowerToValidKeys();
    forall i | 0 <= i < |kept|
      ensures v.members[i].key in UtmUtils.ValidUtmKeys && v.members[i].value.JString?
    {
      FilterUtmParamsMembers(entries, kept[i]);
      var e :| e in entries && e.value != "" && kept[i] == UtmInput(ToLower(e.key), e.value);
    }
  }

  /** The body `handleSubmit` sends. */
  datatype ShortenPayload = ShortenPayload(originalUrl: string, slug: Option<string>,
                                           expirationDate: Option<string>, utmParams: Option<seq<UtmInput>>)

  /** What a submission does: nothing but show errors, throw (an
      expiration the date parser refuses makes `toISOString` throw a
      RangeError), or send a request. */
  datatype Submission = Blocked(errors: ValidationErrors) | Crashed | Send(payload: ShortenPayload)

  /** The outcome `handleSubmit` produces for the given form state. `toIso`
      stands for `Date.prototype.toISOString`. */
  function SubmitOutcome(url: string, slug: string, expirationDate: string, utm: UtmForm,
                         parse: UrlParser, parseDate: DateParser, now: int, toIso: int -> string): Submission
  {
    var errors := ValidationErrors(ValidateUrl(url, parse), ValidateSlug(slug),
                                   ValidateExpirationDate(expirationDate, parseDate, now));
    if errors.url.Some? || errors.slug.Some? || errors.expirationDate.Some? then Blocked(errors)
    else if expirationDate != "" && parseDate(expirationDate).None? then Crashed
    else
      var kept := FilterUtmParams(FormEntries(utm));
      Send(ShortenPayload(url,
                          if slug == "" then None else Some(slug),
                          if expirationDate == "" then None else Some(toIso(parseDate(expirationDate).value)),
                          if |kept| > 0 then Some(kept) else None))
  }

  /** `handleSubmit` up to the request: validates, converts the expiration
      to ISO form, filters the UTM entries and shapes the body. */
  method HandleSubmit(url: string, slug: string, expirationDate: string, utm: UtmForm,
                      parse: UrlParser, parseDate: DateParser, now: int, toIso: int -> string)
    returns (s: Submission)
    ensures s == SubmitOutcome(url, slug, expirationDate, utm, parse, parseDate, now, toIso)
  {
    var ok, errors := ValidateForm(url, slug, expirationDate, parse, parseDate, now);
    if !ok {
      return Blocked(errors);
    }
    var isoExpirationDate: Option<string> := None;
    if expirationDate != "" {
      var date := parseDate(expirationDate);
      if date.None? {
        return Crashed;
      }
      isoExpirationDate := Some(toIso(date.value));
    }
    var filtered := FilterUtmParams(FormEntries(utm));
    s := Send(ShortenPayload(url,
                             if slug == "" then None else Some(slug),
                             isoExpirationDate,
                             if |filtered| > 0 then Some(filtered) else None));
  }

  /** No request leaves a form that fails a check; the error record names
      exactly the failing fields. */
  lemma SubmitBlockedExactly(url: string, slug: string, expirationDate: string, utm: UtmForm,
                             parse: UrlParser, parseDate: DateParser, now: int, toIso: int -> string)
    ensures var s := SubmitOutcome(url, slug, expirationDate, utm, parse, parseDate, now, toIso);
            && (s.Blocked? <==> ValidateUrl(url, parse).Some? || ValidateSlug(slug).Some?
                                || ValidateExpirationDate(expirationDate, parseDate, now).Some?)
            && (s.Blocked? ==> (s.errors.url.Some? <==> FormValidation.ValidateUrl(url, parse).Some?)
                               && (s.errors.slug.Some? <==> ValidateSlug(slug).Some?)
                               && (s.errors.expirationDate.Some?
                                   <==> FormValidation.ValidateExpirationDate(expirationDate, parseDate, now).Some?))
  {
  }

  /** A sent body carries a URL, no empty strings, and a utm object only
      when some entry is filled in; that object passes `isValidUtmParams`. */
  lemma SentPayloadShape(url: string, slug: string, expirationDate: string, utm: UtmForm,
                         parse: UrlParser, parseDate: DateParser, now: int, toIso: int -> string)
    requires (forall t :: toIso(t) != "")
    ensures var s := SubmitOutcome(url, slug, expirationDate, utm, parse, parseDate, now, toIso);
            s.Send? ==>
              && Present(Some(s.payload.originalUrl)) && ParsesAsUrl(parse, s.payload.originalUrl)
              && (s.payload.slug.Some? ==> Present(s.payload.slug))
              && (s.payload.expirationDate.Some? ==> Present(s.payload.expirationDate))
              && (s.payload.utmParams.Some? ==> |s.payload.utmParams.value| > 0
                                                && UtmUtils.IsValidUtmParams(UtmJson(s.payload.utmParams.value)))
  {
    FormUtmIsValidUtmParams(utm);
  }

  /** When the ISO text reads back as the same instant and both sides use
      the same clock, a sent body passes the server's guards exactly when
      its slug is absent or server-valid: the slug rule is the only place
      the two disagree. */
  lemma SentPayloadMeetsServer(url: string, slug: string, expirationDate: string, utm: UtmForm,
                               parse: UrlParser, parseDate: DateParser, now: int, toIso: int -> string)
    requires forall t :: toIso(t) != "" && parseDate(toIso(t)) == Some(t)
    requires SubmitOutcome(url, slug, expirationDate, utm, parse, parseDate, now, toIso).Send?
    ensures var p := SubmitOutcome(url, slug, expirationDate, utm, parse, parseDate, now, toIso).payload;
            UrlValidation.ValidateShortenRequest(UrlValidation.ShortenBody(Some(p.originalUrl), p.slug, p.expirationDate),
                                                 parse, parseDate, now) == UrlValidation.Next
            <==> slug == "" || IsValidSlug(slug)
  {
    if expirationDate != "" {
      var t := parseDate(expirationDate).value;
      assert parseDate(toIso(t)) == Some(t);
    }
  }
}
