/** The web-platform objects the code relies on but does not define.

    The WHATWG URL parser (`new URL(s)`) and JavaScript date parsing
    (`new Date(s).getTime()`) are foreign: every operation that consults
    them takes them as function parameters, so every property proved here
    holds for ANY parser. A date that does not parse is JavaScript's `NaN`,
    modelled as `None`; every comparison with it is false. */
module Platform {
  import opened Common

  /** One name/value pair of a URL's query (an entry of `url.searchParams`). */
  datatype QueryPair = QueryPair(name: string, value: string)

  /** A parsed URL: everything before the query (scheme, authority, path)
      already serialized in `prefix`; the host name and port as the parser
      reported them; the query as its list of pairs (`url.searchParams`)
      and as the text `url.toString()` writes after `?` (`None` when there
      is no `?`); the fragment. The parser supplies both forms of the query;
      only a change to `searchParams` rewrites the text. */
  datatype Url = Url(prefix: string, hostname: string, port: string,
                     query: seq<QueryPair>, search: Option<string>, fragment: Option<string>)

  /** `new URL(s)`: `None` when the constructor throws. */
  type UrlParser = string -> Option<Url>

  /** `new Date(s).getTime()` in milliseconds: `None` when it is `NaN`. */
  type DateParser = string -> Option<int>

  /** `url.host`: the host name followed by `:port` when there is a port. */
  function Host(u: Url): string {
    if u.port == "" then u.hostname else u.hostname + ":" + u.port
  }

  /** The query string produced by the `application/x-www-form-urlencoded`
      serializer (percent-encoding is not modelled). */
  function EncodeQuery(q: seq<QueryPair>): string {
    if q == [] then ""
    else if |q| == 1 then q[0].name + "=" + q[0].value
    else q[0].name + "=" + q[0].value + "&" + EncodeQuery(q[1..])
  }

  /** `url.toString()`: the query text as it stands, after a `?` when there is one. */
  function Href(u: Url): (h: string)
    ensures u.search.None? && u.fragment.None? ==> h == u.prefix
  {
    var query := match u.search case None => "" case Some(q) => "?" + q;
    var fragment := match u.fragment case None => "" case Some(f) => "#" + f;
    u.prefix + query + fragment
  }

  /** The serialized URL starts with everything before the query and then
      carries the query text verbatim, right after a `?`. */
  lemma HrefKeepsQueryText(u: Url)
    ensures OccursAt(Href(u), u.prefix, 0)
    ensures u.search.Some? ==> OccursAt(Href(u), "?" + u.search.value, |u.prefix|)
  {
    var query := match u.search case None => "" case Some(q) => "?" + q;
    var fragment := match u.fragment case None => "" case Some(f) => "#" + f;
    assert Href(u) == u.prefix + query + fragment;
    assert (u.prefix + query + fragment)[..|u.prefix|] == u.prefix;
    assert (u.prefix + query + fragment)[|u.prefix|..|u.prefix| + |query|] == query;
  }

  /** `isValidUrl` in server/src/utils/slug.utils.ts and every `try { new URL(s) }`:
      true exactly when the URL constructor accepts the string. */
  predicate ParsesAsUrl(parse: UrlParser, s: string) {
    parse(s).Some?
  }
}
