/** The click analytics of client/src/features/analytics/utils/analytics.utils.ts:
    classifying a click's referrer and user agent, tallying referrers into
    sorted statistics, and bucketing a timestamp relative to now. */
module Analytics {
  import opened Common
  import opened Platform

  /** `KNOWN_SOURCES`. */
  const KnownSources: map<string, string> :=
    map["twitter.com" := "Twitter", "x.com" := "Twitter", "facebook.com" := "Facebook",
        "linkedin.com" := "LinkedIn", "instagram.com" := "Instagram", "reddit.com" := "Reddit",
        "t.co" := "Twitter", "google.com" := "Google", "bing.com" := "Bing",
        "slack.com" := "Slack", "localhost:3000" := "This App"]

  const Direct := "Direct"

  /** `url.hostname.replace("www.", "")`: the first "www." anywhere in the host name goes. */
  function CleanHostname(u: Url): string {
    ReplaceFirst(u.hostname, "www.", "")
  }

  /** `parseReferrer`: no referrer is direct traffic; a URL is labelled by
      its cleaned host name, through the known sources; anything the URL
      constructor refuses is reported as it is. */
  function ParseReferrer(referrer: Option<string>, parse: UrlParser): (r: string)
    ensures !Present(referrer) ==> r == Direct
    ensures Present(referrer) && parse(referrer.value).None? ==> r == referrer.value
    ensures Present(referrer) && parse(referrer.value).Some? ==>
              (CleanHostname(parse(referrer.value).value) in KnownSources
               ==> r == KnownSources[CleanHostname(parse(referrer.value).value)])
              && (CleanHostname(parse(referrer.value).value) !in KnownSources
                  ==> r == CleanHostname(parse(referrer.value).value))
  {
    if !Present(referrer) then Direct
    else match parse(referrer.value)
      case None => referrer.value
      case Some(u) =>
        var hostname := CleanHostname(u);
        if hostname in KnownSources then KnownSources[hostname] else hostname
  }

  /** A leading "www." does not change the label. */
  lemma WwwPrefixIgnored(u: Url, v: Url)
    requires !Contains(v.hostname, "www.") && u.hostname == "www." + v.hostname
    ensures CleanHostname(u) == CleanHostname(v) == v.hostname
  {
    assert OccursAt(u.hostname, "www.", 0);
  }

  /** Removing text never adds a character. */
  lemma ReplaceFirstByNothing(s: string, pat: string)
    ensures forall i :: 0 <= i < |ReplaceFirst(s, pat, "")| ==> ReplaceFirst(s, pat, "")[i] in s
  {
    match IndexOf(s, pat, 0)
    case None =>
    case Some(k) =>
      var r := s[..k] + "" + s[k + |pat|..];
      forall i | 0 <= i < |r| ensures r[i] in s {
        if i < k { assert r[i] == s[i]; } else { assert r[i] == s[i + |pat|]; }
      }
  }

  /** The "localhost:3000" entry never matches: a host name carries no port,
      so the cleaned host name never contains ':'. */
  lemma LocalhostEntryUnreachable(u: Url)
    requires ':' !in u.hostname
    ensures CleanHostname(u) != "localhost:3000"
  {
    ReplaceFirstByNothing(u.hostname, "www.");
    assert "localhost:3000"[9] == ':';
  }

  /** A referrer on localhost port 3000 is labelled by its bare host name:
      the entry's key is what `url.host` would give, but the lookup uses
      `url.hostname`. */
  lemma LocalhostReferrerIsNotThisApp(referrer: string, parse: UrlParser, u: Url)
    requires referrer != "" && parse(referrer) == Some(u)
    requires u.hostname == "localhost" && u.port == "3000"
    ensures Host(u) in KnownSources && KnownSources[Host(u)] == "This App"
    ensures ParseReferrer(Some(referrer), parse) == "localhost"
  {
    var h := "localhost";
    assert CleanHostname(u) == h by {
      assert forall k :: 0 <= k < |h| ==> h[k] != 'w';
      forall j: nat ensures !OccursAt(h, "www.", j) {
        if j + 4 <= |h| {
          assert h[j..j + 4][0] == h[j] != 'w';
        }
      }
    }
    assert h !in KnownSources;
    assert Host(u) == "localhost:3000" by {
      assert Host(u) == "localhost" + ":" + "3000";
    }
  }

  /** `MOBILE_KEYWORDS`. */
  const MobileKeywords: seq<string> := ["mobile", "android", "iphone", "ipad", "ipod", "blackberry", "windows phone"]

  datatype Device = Desktop | Mobile

  /** `keywords.some(k => ua.includes(k))`. */
  function AnyKeyword(ua: string, keywords: seq<string>): (b: bool)
    ensures b <==> exists k :: k in keywords && Contains(ua, k)
  {
    if keywords == [] then false
    else Includes(ua, keywords[0]) || AnyKeyword(ua, keywords[1..])
  }

  /** `parseDevice`. */
  function ParseDevice(userAgent: Option<string>): (d: Device)
    ensures !Present(userAgent) ==> d == Desktop
    ensures Present(userAgent) ==>
              (d == Mobile <==> exists k :: k in MobileKeywords && Contains(ToLower(userAgent.value), k))
  {
    if !Present(userAgent) then Desktop
    else if AnyKeyword(ToLower(userAgent.value), MobileKeywords) then Mobile
    else Desktop
  }

  /** Lower-casing twice is lower-casing once. */
  lemma ToLowerIdempotent(s: string)
    ensures ToLower(ToLower(s)) == ToLower(s)
  {
    forall i | 0 <= i < |s| ensures ToLower(ToLower(s))[i] == ToLower(s)[i] {
      assert ToLowerChar(ToLowerChar(s[i])) == ToLowerChar(s[i]);
    }
  }

  /** The classification ignores letter case. */
  lemma ParseDeviceIgnoresCase(ua: string)
    ensures ParseDevice(Some(ua)) == ParseDevice(Some(ToLower(ua)))
  {
    ToLowerIdempotent(ua);
  }

  const MinuteMs: int := 60000
  const HourMs: int := 3600000
  const DayMs: int := 86400000

  /** The buckets of `formatRelativeTime`; the absolute date is rendered by
      the locale, and a date that does not parse lands there too (every
      comparison with `NaN` is false). */
  datatype RelativeTime = JustNow | MinutesAgo(minutes: int) | HoursAgo(hours: int) | DaysAgo(days: int)
                        | LocaleDate(date: Option<int>)

  /** `formatRelativeTime`, with `Math.floor` of a quotient by a positive divisor. */
  function FormatRelativeTime(date: Option<int>, now: int): (r: RelativeTime)
    ensures date.None? ==> r == LocaleDate(None)
    ensures date.Some? ==>
              var diff := now - date.value;
              && (r == JustNow <==> diff < MinuteMs)
              && (r.MinutesAgo? <==> MinuteMs <= diff < HourMs)
              && (r.HoursAgo? <==> HourMs <= diff < DayMs)
              && (r.DaysAgo? <==> DayMs <= diff < 7 * DayMs)
              && (r.LocaleDate? <==> 7 * DayMs <= diff)
              && (r.MinutesAgo? ==> 1 <= r.minutes < 60 && r.minutes * MinuteMs <= diff < (r.minutes + 1) * MinuteMs)
              && (r.HoursAgo? ==> 1 <= r.hours < 24 && r.hours * HourMs <= diff < (r.hours + 1) * HourMs)
              && (r.DaysAgo? ==> 1 <= r.days < 7 && r.days * DayMs <= diff < (r.days + 1) * DayMs)
              && (r.LocaleDate? ==> r.date == date)
  {
    match date
    case None => LocaleDate(None)
    case Some(t) =>
      var diffMs := now - t;
      var diffMins := diffMs / MinuteMs;
      var diffHours := diffMs / HourMs;
      var diffDays := diffMs / DayMs;
      if diffMins < 1 then JustNow
      else if diffMins < 60 then MinutesAgo(diffMins)
      else if diffHours < 24 then HoursAgo(diffHours)
      else if diffDays < 7 then DaysAgo(diffDays)
      else LocaleDate(date)
  }

  /** A timestamp in the future reads "Just now". */
  lemma FutureIsJustNow(t: int, now: int)
    requires t > now
    ensures FormatRelativeTime(Some(t), now) == JustNow
  {
  }

  // ---------------------------------------------------------------------
  // calculateReferrerStats
  // ---------------------------------------------------------------------

  /** One row of the referrer statistics. */
  datatype ReferrerStat = ReferrerStat(name: string, value: nat, percentage: int)

  /** `Math.round(value / total * 100)`, or 0 when there are no clicks,
      computed exactly: the nearest integer, halves rounded up. */
  function RoundPercent(value: nat, total: nat): (p: int)
    ensures total == 0 ==> p == 0
    ensures total > 0 ==> 2 * total * p <= 200 * value + total < 2 * total * (p + 1)
    ensures total > 0 && value <= total ==> 0 <= p <= 100
  {
    if total == 0 then 0
    else
      var p := (200 * value + total) / (2 * total);
      assert value <= total ==> 200 * value + total < 2 * total * 101;
      p
  }

  /** The source label of every click, in click order. */
  function Sources(clicks: seq<Option<string>>, parse: UrlParser): (s: seq<string>)
    ensures |s| == |clicks|
    ensures forall i :: 0 <= i < |clicks| ==> s[i] == ParseReferrer(clicks[i], parse)
  {
    seq(|clicks|, i requires 0 <= i < |clicks| => ParseReferrer(clicks[i], parse))
  }

  /** How many times `n` occurs. */
  function Count(s: seq<string>, n: string): nat {
    if s == [] then 0 else Count(s[..|s| - 1], n) + (if s[|s| - 1] == n then 1 else 0)
  }

  /** A label that occurs is counted at least once. */
  lemma {:induction false} CountPositive(s: seq<string>, n: string)
    requires n in s
    ensures Count(s, n) >= 1
  {
    var last := |s| - 1;
    if s[last] != n {
      assert n in s[..last];
      CountPositive(s[..last], n);
    }
  }

  /** The sum of the counts of `names`, taken from the end; a name
      without a count adds nothing. */
  function SumCounts(names: seq<string>, counts: map<string, nat>): nat {
    if names == [] then 0
    else
      var last := names[|names| - 1];
      SumCounts(names[..|names| - 1], counts) + (if last in counts then counts[last] else 0)
  }

  /** Adding one to the count of a listed name adds one to the sum. */
  lemma {:induction false} SumCountsBump(names: seq<string>, counts: map<string, nat>, n: string)
    requires Distinct(names) && n in names && n in counts
    ensures SumCounts(names, counts[n := counts[n] + 1]) == SumCounts(names, counts) + 1
  {
    var last := |names| - 1;
    var init := names[..last];
    assert Distinct(init);
    if names[last] == n {
      assert n !in init;
      SumCountsUnaffected(init, counts, n, counts[n] + 1);
    } else {
      assert n in init;
      SumCountsBump(init, counts, n);
    }
  }

  /** The count of an unlisted name does not enter the sum. */
  lemma {:induction false} SumCountsUnaffected(names: seq<string>, counts: map<string, nat>, n: string, c: nat)
    requires n !in names
    ensures SumCounts(names, counts[n := c]) == SumCounts(names, counts)
  {
    if names != [] {
      var init := names[..|names| - 1];
      assert n !in init;
      SumCountsUnaffected(init, counts, n, c);
    }
  }

  /** A label that is counted occurs. */
  lemma {:induction false} CountPositiveConverse(s: seq<string>, n: string)
    requires Count(s, n) >= 1
    ensures n in s
  {
    var last := |s| - 1;
    if s[last] != n {
      CountPositiveConverse(s[..last], n);
    }
  }

  /** The total of all values. */
  function Total(stats: seq<ReferrerStat>): nat {
    if stats == [] then 0 else stats[0].value + Total(stats[1..])
  }

  lemma {:induction false} TotalAppend(stats: seq<ReferrerStat>, x: ReferrerStat)
    ensures Total(stats + [x]) == Total(stats) + x.value
  {
    if stats != [] {
      assert (stats + [x])[1..] == stats[1..] + [x];
      TotalAppend(stats[1..], x);
    }
  }

  /** The names, as a set. */
  function NameSet(stats: seq<ReferrerStat>): set<string> {
    set i | 0 <= i < |stats| :: stats[i].name
  }

  /** No name is listed twice. */
  predicate DistinctNames(stats: seq<ReferrerStat>) {
    forall i, j :: 0 <= i < j < |stats| ==> stats[i].name != stats[j].name
  }

  /** Values never increase along the list. */
  predicate SortedByValue(stats: seq<ReferrerStat>) {
    forall i, j :: 0 <= i < j < |stats| ==> stats[i].value >= stats[j].value
  }

  /** One step of an insertion sort by value, largest first: `x` goes
      before the first entry whose value does not exceed its own. */
  function InsertByValue(x: ReferrerStat, stats: seq<ReferrerStat>): (r: seq<ReferrerStat>)
    ensures |r| == |stats| + 1
    ensures multiset(r) == multiset(stats) + multiset{x}
    ensures Total(r) == Total(stats) + x.value
  {
    if stats == [] || x.value >= stats[0].value then [x] + stats
    else
      assert stats == [stats[0]] + stats[1..];
      [stats[0]] + InsertByValue(x, stats[1..])
  }

  /** A head no smaller than anything after it extends a sorted list. */
  lemma SortedCons(y: ReferrerStat, rest: seq<ReferrerStat>)
    requires SortedByValue(rest)
    requires forall k :: 0 <= k < |rest| ==> y.value >= rest[k].value
    ensures SortedByValue([y] + rest)
  {
    var r := [y] + rest;
    forall i, j | 0 <= i < j < |r| ensures r[i].value >= r[j].value {
      assert r[j] == rest[j - 1];
      if i > 0 { assert r[i] == rest[i - 1]; }
    }
  }

  /** Inserting into a sorted list keeps it sorted. */
  lemma {:induction false} InsertSorted(x: ReferrerStat, stats: seq<ReferrerStat>)
    requires SortedByValue(stats)
    ensures SortedByValue(InsertByValue(x, stats))
  {
    if stats == [] || x.value >= stats[0].value {
      SortedCons(x, stats);
    } else {
      var rest := InsertByValue(x, stats[1..]);
      InsertSorted(x, stats[1..]);
      forall k | 0 <= k < |rest| ensures stats[0].value >= rest[k].value {
        var y := rest[k];
        assert y in multiset(rest);
        if y != x {
          assert y in multiset(stats[1..]);
          var m :| 0 <= m < |stats[1..]| && stats[1..][m] == y;
          assert stats[m + 1] == y;
        }
      }
      SortedCons(stats[0], rest);
    }
  }

  /** Inserting adds exactly the inserted name, and a new name keeps the names distinct. */
  lemma {:induction false} InsertNames(x: ReferrerStat, stats: seq<ReferrerStat>)
    ensures NameSet(InsertByValue(x, stats)) == NameSet(stats) + {x.name}
    ensures DistinctNames(stats) && x.name !in NameSet(stats) ==> DistinctNames(InsertByValue(x, stats))
  {
    var r := InsertByValue(x, stats);
    if stats == [] || x.value >= stats[0].value {
      NameSetCons(r);
    } else {
      var rest := InsertByValue(x, stats[1..]);
      InsertNames(x, stats[1..]);
      NameSetCons(r);
      NameSetCons(stats);
      assert r[1..] == rest;
      if DistinctNames(stats) && x.name !in NameSet(stats) {
        assert DistinctNames(stats[1..]);
        assert x.name !in NameSet(stats[1..]);
        assert stats[0].name !in NameSet(stats[1..]);
        DistinctCons(r);
      }
    }
  }

  lemma NameSetCons(stats: seq<ReferrerStat>)
    requires stats != []
    ensures NameSet(stats) == {stats[0].name} + NameSet(stats[1..])
  {
    forall n | n in NameSet(stats) ensures n in {stats[0].name} + NameSet(stats[1..]) {
      var k :| 0 <= k < |stats| && stats[k].name == n;
      if k > 0 { assert stats[1..][k - 1].name == n; }
    }
    forall n | n in NameSet(stats[1..]) ensures n in NameSet(stats) {
      var k :| 0 <= k < |stats[1..]| && stats[1..][k].name == n;
      assert stats[k + 1].name == n;
    }
  }

  /** A list is without repeated names when its head's name is new to its
      tail and its tail is without repeated names. */
  lemma DistinctCons(stats: seq<ReferrerStat>)
    requires stats != [] && DistinctNames(stats[1..]) && stats[0].name !in NameSet(stats[1..])
    ensures DistinctNames(stats)
  {
    forall i, j | 0 <= i < j < |stats| ensures stats[i].name != stats[j].name {
      if i == 0 {
        assert stats[1..][j - 1].name == stats[j].name;
      } else {
        assert stats[1..][i - 1] == stats[i] && stats[1..][j - 1] == stats[j];
      }
    }
  }

  /** `sort((a, b) => b.value - a.value)`: the largest count first. */
  function SortByValue(stats: seq<ReferrerStat>): (r: seq<ReferrerStat>)
    ensures |r| == |stats|
    ensures multiset(r) == multiset(stats)
    ensures Total(r) == Total(stats)
    ensures SortedByValue(r)
  {
    if stats == [] then []
    else
      assert stats == [stats[0]] + stats[1..];
      var sortedRest := SortByValue(stats[1..]);
      InsertSorted(stats[0], sortedRest);
      InsertByValue(stats[0], sortedRest)
  }

  /** Sorting keeps the set of names, and keeps them distinct. */
  lemma {:induction false} SortNames(stats: seq<ReferrerStat>)
    ensures NameSet(SortByValue(stats)) == NameSet(stats)
    ensures DistinctNames(stats) ==> DistinctNames(SortByValue(stats))
  {
    if stats != [] {
      var sortedRest := SortByValue(stats[1..]);
      assert SortByValue(stats) == InsertByValue(stats[0], sortedRest);
      SortNames(stats[1..]);
      InsertNames(stats[0], sortedRest);
      NameSetCons(stats);
      if DistinctNames(stats) {
        assert DistinctNames(stats[1..]);
        assert stats[0].name !in NameSet(stats[1..]);
      }
    }
  }

  /** The `.map` step: one row per label, in dictionary order. */
  function Rows(names: seq<string>, counts: map<string, nat>, total: nat): (rows: seq<ReferrerStat>)
    requires forall n :: n in names ==> n in counts
    ensures |rows| == |names|
    ensures forall k :: 0 <= k < |names| ==>
              rows[k] == ReferrerStat(names[k], counts[names[k]], RoundPercent(counts[names[k]], total))
  {
    seq(|names|, k requires 0 <= k < |names| =>
                   ReferrerStat(names[k], counts[names[k]], RoundPercent(counts[names[k]], total)))
  }

  /** The rows carry every counted click. */
  lemma {:induction false} RowsTotal(names: seq<string>, counts: map<string, nat>, total: nat)
    requires forall n :: n in names ==> n in counts
    ensures Total(Rows(names, counts, total)) == SumCounts(names, counts)
  {
    if names != [] {
      var init := names[..|names| - 1];
      var last := names[|names| - 1];
      RowsTotal(init, counts, total);
      var x := ReferrerStat(last, counts[last], RoundPercent(counts[last], total));
      assert Rows(names, counts, total) == Rows(init, counts, total) + [x];
      TotalAppend(Rows(init, counts, total), x);
    }
  }

  /** The dictionary `calculateReferrerStats` fills: the labels in
      first-seen order, and how often each occurs. */
  function Tally(sources: seq<string>): (seq<string>, map<string, nat>) {
    if sources == [] then ([], map[])
    else
      var prev := Tally(sources[..|sources| - 1]);
      var source := sources[|sources| - 1];
      if source in prev.1 then (prev.0, prev.1[source := prev.1[source] + 1])
      else (prev.0 + [source], prev.1[source := 1])
  }

  /** One more label updates the tally as the `forEach` body does. */
  lemma TallyStep(sources: seq<string>, i: nat)
    requires i < |sources|
    ensures var prev := Tally(sources[..i]);
            Tally(sources[..i + 1]) ==
              if sources[i] in prev.1 then (prev.0, prev.1[sources[i] := prev.1[sources[i]] + 1])
              else (prev.0 + [sources[i]], prev.1[sources[i] := 1])
  {
    assert sources[..i + 1][..i] == sources[..i];
  }

  /** What a tally of `sources` holds. */
  ghost predicate IsTallyOf(sources: seq<string>, names: seq<string>, counts: map<string, nat>) {
    && Distinct(names) && |names| <= |sources|
    && (forall n :: n in counts <==> n in names)
    && (forall n :: n in names <==> n in sources)
    && (forall n :: n in counts ==> counts[n] == Count(sources, n))
    && SumCounts(names, counts) == |sources|
  }

  /** The tally lists every label once, counts it exactly, and accounts for
      every click. */
  lemma TallyCorrect(sources: seq<string>)
    ensures IsTallyOf(sources, Tally(sources).0, Tally(sources).1)
  {
    TallyNames(sources);
    TallyCounts(sources);
    TallySum(sources);
  }

  /** The tally's labels are those of `sources`, once each, and are exactly
      the keys of its counts. */
  lemma {:induction false} TallyNames(sources: seq<string>)
    ensures Distinct(Tally(sources).0) && |Tally(sources).0| <= |sources|
    ensures forall n :: n in Tally(sources).1 <==> n in Tally(sources).0
    ensures forall n :: n in Tally(sources).0 <==> n in sources
  {
    if sources != [] {
      var init := sources[..|sources| - 1];
      var source := sources[|sources| - 1];
      TallyNames(init);
      var names := Tally(init).0;
      var names' := Tally(sources).0;
      assert sources == init + [source];
      assert forall n :: n in sources <==> n in init || n == source;
      if source !in names {
        assert names' == names + [source];
        forall i, j | 0 <= i < j < |names'| ensures names'[i] != names'[j] {
          if j == |names| { assert names'[i] in names; }
        }
      }
    }
  }

  /** Each count is the number of occurrences of its label. */
  lemma {:induction false} TallyCounts(sources: seq<string>)
    ensures forall n :: n in Tally(sources).1 ==> Tally(sources).1[n] == Count(sources, n)
  {
    if sources != [] {
      var init := sources[..|sources| - 1];
      var source := sources[|sources| - 1];
      TallyCounts(init);
      TallyNames(init);
      var counts, counts' := Tally(init).1, Tally(sources).1;
      forall n | n in counts' ensures counts'[n] == Count(sources, n) {
        assert Count(sources, n) == Count(init, n) + (if source == n then 1 else 0);
        if n != source {
          assert counts'[n] == counts[n] == Count(init, n);
        } else if source in counts {
          assert counts'[n] == counts[n] + 1;
        } else {
          assert Count(init, n) == 0 by {
            if Count(init, n) != 0 { CountPositiveConverse(init, n); }
          }
        }
      }
    }
  }

  /** Listing a new name with count `c` adds `c` to the sum. */
  lemma SumCountsAppend(names: seq<string>, counts: map<string, nat>, n: string, c: nat)
    requires n !in names
    ensures SumCounts(names + [n], counts[n := c]) == SumCounts(names, counts) + c
  {
    SumCountsUnaffected(names, counts, n, c);
    assert (names + [n])[..|names|] == names;
  }

  /** The counts add up to the number of clicks. */
  lemma {:induction false} TallySum(sources: seq<string>)
    ensures SumCounts(Tally(sources).0, Tally(sources).1) == |sources|
  {
    if sources != [] {
      var init := sources[..|sources| - 1];
      var source := sources[|sources| - 1];
      TallySum(init);
      var names, counts := Tally(init).0, Tally(init).1;
      assert Distinct(names) && (source in counts <==> source in names) by {
        TallyNames(init);
      }
      if source in counts {
        SumCountsBump(names, counts, source);
      } else {
        SumCountsAppend(names, counts, source, 1);
      }
    }
  }

  /** The `forEach` of `calculateReferrerStats`. */
  method TallySources(clicks: seq<Option<string>>, parse: UrlParser)
    returns (names: seq<string>, counts: map<string, nat>)
    ensures (names, counts) == Tally(Sources(clicks, parse))
  {
    ghost var sources := Sources(clicks, parse);
    names := [];
    counts := map[];
    var i := 0;
    while i < |clicks|
      invariant 0 <= i <= |clicks|
      invariant (names, counts) == Tally(sources[..i])
    {
      var source := ParseReferrer(clicks[i], parse);
      TallyStep(sources, i);
      if source in counts {
        counts := counts[source := counts[source] + 1];
      } else {
        names := names + [source];
        counts := counts[source := 1];
      }
      i := i + 1;
    }
    assert sources[..i] == sources;
  }

  /** A row that carries the number of clicks from its label, at least one,
      and that number's rounded share of `total`. */
  ghost predicate CountedRow(x: ReferrerStat, sources: seq<string>, total: nat) {
    x.value == Count(sources, x.name) >= 1 && x.percentage == RoundPercent(x.value, total)
  }

  /** Sorting moves rows without changing any of them. */
  lemma SortKeepsRows(rows: seq<ReferrerStat>, sources: seq<string>, total: nat)
    requires forall k :: 0 <= k < |rows| ==> CountedRow(rows[k], sources, total)
    ensures forall k :: 0 <= k < |SortByValue(rows)| ==> CountedRow(SortByValue(rows)[k], sources, total)
  {
    var stats := SortByValue(rows);
    forall k | 0 <= k < |stats| ensures CountedRow(stats[k], sources, total) {
      assert stats[k] in multiset(rows);
      var m :| 0 <= m < |rows| && rows[m] == stats[k];
    }
  }

  /** `calculateReferrerStats`: every source label once, with its number of
      clicks and its rounded share of all clicks, sorted by count, largest first. */
  method CalculateReferrerStats(clicks: seq<Option<string>>, parse: UrlParser) returns (stats: seq<ReferrerStat>)
    ensures DistinctNames(stats)
    ensures NameSet(stats) == Elements(Sources(clicks, parse))
    ensures forall i :: 0 <= i < |stats| ==> CountedRow(stats[i], Sources(clicks, parse), |clicks|)
    ensures SortedByValue(stats)
    ensures Total(stats) == |clicks|
    ensures |stats| <= |clicks|
  {
    var names, counts := TallySources(clicks, parse);
    ghost var sources := Sources(clicks, parse);
    TallyCorrect(sources);
    var rows := Rows(names, counts, |clicks|);
    RowsTotal(names, counts, |clicks|);
    RowsProperties(names, counts, |clicks|, sources);
    stats := SortByValue(rows);
    SortNames(rows);
    SortKeepsRows(rows, sources, |clicks|);
  }

  /** The rows built from a tally name every label once, with its count. */
  lemma RowsProperties(names: seq<string>, counts: map<string, nat>, total: nat, sources: seq<string>)
    requires IsTallyOf(sources, names, counts)
    ensures DistinctNames(Rows(names, counts, total))
    ensures NameSet(Rows(names, counts, total)) == Elements(sources)
    ensures forall k :: 0 <= k < |names| ==> CountedRow(Rows(names, counts, total)[k], sources, total)
  {
    var rows := Rows(names, counts, total);
    forall n | n in NameSet(rows) ensures n in Elements(sources) {
      var k :| 0 <= k < |rows| && rows[k].name == n;
      assert names[k] in names;
    }
    forall n | n in Elements(sources) ensures n in NameSet(rows) {
      assert n in Elements(names);
      var k :| 0 <= k < |names| && names[k] == n;
      assert rows[k].name == n;
    }
    forall k | 0 <= k < |names| ensures Count(sources, names[k]) >= 1 {
      assert names[k] in Elements(names);
      CountPositive(sources, names[k]);
    }
  }
}
