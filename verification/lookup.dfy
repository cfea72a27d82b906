/** The pure parts of the abuse-report lookup for one newly listed link:
    the URL it queries, the order in which it tries to read a report count
    out of the returned page, the fallback when no count is found, and the
    reduction of all lookups' counts to one total. The network request is an
    input (`PageFetch`); each regular expression is an opaque matcher. */
module Lookup {
  import opened Wrappers
  import opened Text
  import Uri

  const LookupBase: string := "https://www.chainabuse.com/domain/"

  /** The outcome of one lookup: the report count read from the page and
      whether the page knew the address. */
  datatype LookupResult = LookupResult(totalReports: int, found: bool)

  /** What every failure path returns. */
  const NotFound: LookupResult := LookupResult(0, false)

  /** The lookup's page request. `Unreachable` covers a network error and the
      abort after the 10-second timeout; `body` is None when reading the
      response text failed. */
  datatype PageFetch = Unreachable | Page(status: int, body: Option<string>)

  /** The page's regular expressions. `primary` is `(\d+)\s+Scam\s+Reports?`:
      its capture is a run of digits, so it yields the number directly.
      Each of `alternates`, in order, yields its raw first capture group,
      which `parseInt` then reads. */
  datatype Patterns = Patterns(primary: string -> Option<nat>, alternates: seq<string -> Option<string>>)

  /** A link without a scheme gets `https://` in front; one that already
      starts with `http` is used as it is. */
  function FullUrl(domain: string): (url: string)
    ensures IsPrefix("http", url)
    ensures IsSuffix(domain, url)
    ensures url == domain <==> IsPrefix("http", domain)
  {
    if IsPrefix("http", domain) then domain else "https://" + domain
  }

  lemma FullUrlIdempotent(domain: string)
    ensures FullUrl(FullUrl(domain)) == FullUrl(domain)
  {
  }

  /** The page queried for a link: the full URL, percent-encoded, as the last
      path segment of the lookup base. */
  function LookupUrl(domain: string): (url: string)
    ensures IsPrefix(LookupBase, url)
    ensures forall i :: |LookupBase| <= i < |url| ==> url[i] != '/' && url[i] != '?' && url[i] != '#'
  {
    LookupBase + Uri.Encode(FullUrl(domain))
  }

  /** The queried address can be read back from the lookup URL: the text after
      the base is one path segment that percent-decodes to the full URL. */
  lemma LookupUrlIdentifiesLink(domain: string)
    ensures Uri.Decode(LookupUrl(domain)[|LookupBase|..]) == Some(FullUrl(domain))
  {
    var url := LookupUrl(domain);
    assert url[|LookupBase|..] == Uri.Encode(FullUrl(domain));
    Uri.DecodeEncode(FullUrl(domain));
  }

  /** Two links query the same page exactly when their full URLs agree. */
  lemma SamePageIffSameUrl(d1: string, d2: string)
    ensures LookupUrl(d1) == LookupUrl(d2) <==> FullUrl(d1) == FullUrl(d2)
  {
    if LookupUrl(d1) == LookupUrl(d2) {
      LookupUrlIdentifiesLink(d1);
      LookupUrlIdentifiesLink(d2);
    }
  }

  /** A link without a scheme and the same link behind `https://` query
      the same page. */
  lemma SchemeIsOptional(domain: string)
    requires !IsPrefix("http", domain)
    ensures LookupUrl(domain) == LookupUrl("https://" + domain)
  {
    assert ("https://" + domain)[..4] == "http";
  }

  /** The length of an `http://` or `https://` at the front of `s`, or 0. */
  function SchemeLength(s: string): nat {
    if IsPrefix("https://", s) then 8 else if IsPrefix("http://", s) then 7 else 0
  }

  /** `domain.replace(/https?:\/\//, '')`: the leftmost `http://` or
      `https://`, wherever it occurs, is removed; at most one is removed. */
  function StripScheme(s: string): (r: string)
    ensures (forall i :: 0 <= i <= |s| ==> SchemeLength(s[i..]) == 0) ==> r == s
    ensures SchemeLength(s) > 0 ==> r == s[SchemeLength(s)..]
    ensures |r| == |s| || |r| == |s| - 7 || |r| == |s| - 8
  {
    assert s[0..] == s;
    if SchemeLength(s) > 0 then s[SchemeLength(s)..]
    else if |s| == 0 then s
    else
      assert forall i :: 0 <= i < |s| ==> s[1..][i..] == s[i + 1..];
      [s[0]] + StripScheme(s[1..])
  }

  /** No `http://` or `https://` starts before index `i` of `s`. */
  predicate NoSchemeBefore(s: string, i: nat)
    requires i <= |s|
  {
    forall j :: 0 <= j < i ==> SchemeLength(s[j..]) == 0
  }

  /** Where no scheme starts at the front, the first character is kept and
      the leftmost scheme of the rest is one position earlier. */
  lemma StripSchemeStep(s: string, i: nat)
    requires 0 < i <= |s| && NoSchemeBefore(s, i)
    ensures StripScheme(s) == [s[0]] + StripScheme(s[1..])
    ensures NoSchemeBefore(s[1..], i - 1)
    ensures s[1..][i - 1..] == s[i..]
  {
    assert s[0..] == s;
    forall j | 0 <= j < i - 1
      ensures SchemeLength(s[1..][j..]) == 0
    {
      assert s[1..][j..] == s[j + 1..];
    }
  }

  /** Keeping the first character and cutting `n` characters at `i - 1`
      out of the rest cuts them at `i` out of the whole. */
  lemma CutAfterFirst(s: string, i: nat, n: nat, r: string, rt: string)
    requires 0 < i && i + n <= |s|
    requires r == [s[0]] + rt && rt == s[1..][..i - 1] + s[1..][i - 1 + n..]
    ensures r == s[..i] + s[i + n..]
  {
    assert s[..i] == [s[0]] + s[1..][..i - 1];
    assert s[1..][i - 1 + n..] == s[i + n..];
  }

  /** A scheme at the very front is the one removed. */
  lemma StripSchemeAtFront(s: string)
    requires SchemeLength(s[0..]) > 0
    ensures StripScheme(s) == s[..0] + s[0 + SchemeLength(s[0..])..]
  {
    assert s[0..] == s;
  }

  /** The scheme removed is the leftmost one, wherever it starts. */
  lemma {:induction false} StripSchemeRemovesLeftmost(s: string, i: nat)
    requires i <= |s| && SchemeLength(s[i..]) > 0 && NoSchemeBefore(s, i)
    ensures StripScheme(s) == s[..i] + s[i + SchemeLength(s[i..])..]
    decreases i
  {
    if i == 0 {
      StripSchemeAtFront(s);
    } else {
      var n := SchemeLength(s[i..]);
      StripSchemeStep(s, i);
      StripSchemeRemovesLeftmost(s[1..], i - 1);
      CutAfterFirst(s, i, n, StripScheme(s), StripScheme(s[1..]));
    }
  }

  /** One alternate pattern's reading of the page: its capture, if it
      matched, read by `parseInt`; None when it did not match or read NaN.
      With `countsOnly`, a negative number is no reading either. */
  function Reading(pattern: string -> Option<string>, html: string, countsOnly: bool): (r: Option<int>)
    ensures r.Some? <==> pattern(html).Some? && ParseInt(pattern(html).value).Some?
                         && !(countsOnly && ParseInt(pattern(html).value).value < 0)
    ensures countsOnly && r.Some? ==> r.value >= 0
  {
    match pattern(html)
    case None => None
    case Some(capture) =>
      match ParseInt(capture)
      case None => None
      case Some(v) => if countsOnly && v < 0 then None else Some(v)
  }

  /** A pattern whose capture `parseInt` reads as `v` yields `v` as written,
      and yields it under the corrected rule only when it is not negative. */
  lemma ReadingOfNumber(pattern: string -> Option<string>, html: string, capture: string, v: int)
    requires pattern(html) == Some(capture) && ParseInt(capture) == Some(v)
    ensures Reading(pattern, html, false) == Some(v)
    ensures Reading(pattern, html, true) == if v < 0 then None else Some(v)
  {
  }

  /** The alternates' readings, in order. */
  function AlternateReadings(alternates: seq<string -> Option<string>>, html: string, countsOnly: bool): (rs: seq<Option<int>>)
    ensures |rs| == |alternates|
    ensures forall k :: 0 <= k < |rs| ==> rs[k] == Reading(alternates[k], html, countsOnly)
  {
    if |alternates| == 0 then []
    else [Reading(alternates[0], html, countsOnly)] + AlternateReadings(alternates[1..], html, countsOnly)
  }

  /** The readings in the order the lookup tries them: the primary pattern,
      then each alternate. */
  function Readings(html: string, p: Patterns, countsOnly: bool): (rs: seq<Option<int>>)
    ensures |rs| == 1 + |p.alternates|
    ensures countsOnly ==> forall k :: 0 <= k < |rs| && rs[k].Some? ==> rs[k].value >= 0
  {
    var primary: Option<int> := match p.primary(html) case Some(n) => Some(n) case None => None;
    [primary] + AlternateReadings(p.alternates, html, countsOnly)
  }

  /** The first present value of `xs`, scanning from the front. */
  function FirstSome<T>(xs: seq<Option<T>>): (r: Option<T>)
    ensures r.None? <==> forall k :: 0 <= k < |xs| ==> xs[k].None?
    ensures r.Some? ==> exists k :: 0 <= k < |xs| && xs[k] == r && forall j :: 0 <= j < k ==> xs[j].None?
  {
    if |xs| == 0 then None
    else if xs[0].Some? then xs[0]
    else
      var r := FirstSome(xs[1..]);
      assert forall k :: 1 <= k < |xs| ==> xs[k] == xs[1..][k - 1];
      r
  }

  /** The first reading wins: there is exactly one first present reading,
      and the result is its value. */
  lemma FirstSomeIsFirst<T>(xs: seq<Option<T>>, k: nat)
    requires k < |xs| && xs[k].Some?
    requires forall j :: 0 <= j < k ==> xs[j].None?
    ensures FirstSome(xs) == xs[k]
  {
    var r := FirstSome(xs);
    var k' :| 0 <= k' < |xs| && xs[k'] == r && forall j :: 0 <= j < k' ==> xs[j].None?;
  }

  /** How the lookup reads a page that came back: the first pattern that
      yields a number wins; otherwise the page counts as "found, no reports"
      when it mentions `chainabuse` and the link (scheme stripped). */
  function ReadPage(domain: string, html: string, p: Patterns, countsOnly: bool): (r: LookupResult)
    ensures r.totalReports != 0 ==> r.found
    ensures countsOnly ==> r.totalReports >= 0
    ensures (forall k :: 0 <= k < |Readings(html, p, countsOnly)| ==> Readings(html, p, countsOnly)[k].None?) ==>
      r.totalReports == 0 && (r.found <==> IsInfix("chainabuse", html) && IsInfix(StripScheme(domain), html))
  {
    match FirstSome(Readings(html, p, countsOnly))
    case Some(n) => LookupResult(n, true)
    case None =>
      if IsInfix("chainabuse", html) && IsInfix(StripScheme(domain), html) then LookupResult(0, true)
      else NotFound
  }

  /** The whole lookup, before or after the read of the page; `countsOnly`
      selects whether a negative number from an alternate pattern is
      accepted (as the code is written) or skipped. */
  function Respond(domain: string, fetch: PageFetch, p: Patterns, countsOnly: bool): (r: LookupResult)
    ensures !Usable(fetch) ==> r == NotFound
    ensures r.totalReports != 0 ==> r.found
    ensures countsOnly ==> r.totalReports >= 0
  {
    match fetch
    case Unreachable => NotFound
    case Page(status, body) =>
      if !(200 <= status < 300) || body.None? then NotFound
      else ReadPage(domain, body.value, p, countsOnly)
  }

  /** The page could be fetched with a 2xx status and read. */
  predicate Usable(fetch: PageFetch) {
    fetch.Page? && 200 <= fetch.status < 300 && fetch.body.Some?
  }

  /** `checkChainAbuseReports` as written: an alternate pattern's reading is
      accepted whenever `parseInt` does not give NaN, including a negative
      number. */
  function CheckReportsAsWritten(domain: string, fetch: PageFetch, p: Patterns): (r: LookupResult)
    ensures !Usable(fetch) ==> r == NotFound
    ensures r.totalReports != 0 ==> r.found
  {
    Respond(domain, fetch, p, false)
  }

  /** `checkChainAbuseReports` with the first pattern that yields a
      non-negative count winning: it never fails outwardly, every failure path
      is "not found, zero reports", and the count is never negative. */
  function CheckReports(domain: string, fetch: PageFetch, p: Patterns): (r: LookupResult)
    ensures !Usable(fetch) ==> r == NotFound
    ensures r.totalReports >= 0
    ensures r.totalReports > 0 ==> r.found
    ensures Usable(fetch) && p.primary(fetch.body.value).Some? ==>
      r == LookupResult(p.primary(fetch.body.value).value, true)
  {
    PrimaryWins(domain, fetch, p, true);
    Respond(domain, fetch, p, true)
  }

  /** A match of the primary pattern decides the count outright. */
  lemma PrimaryWins(domain: string, fetch: PageFetch, p: Patterns, countsOnly: bool)
    ensures Usable(fetch) && p.primary(fetch.body.value).Some? ==>
      Respond(domain, fetch, p, countsOnly) == LookupResult(p.primary(fetch.body.value).value, true)
  {
    if Usable(fetch) && p.primary(fetch.body.value).Some? {
      var rs := Readings(fetch.body.value, p, countsOnly);
      assert rs[0] == Some(p.primary(fetch.body.value).value);
      FirstSomeIsFirst(rs, 0);
    }
  }

  /** On a usable page, the count is that of the first pattern in order
      that yields one, whichever acceptance rule is used. */
  lemma FirstReadingWins(domain: string, fetch: PageFetch, p: Patterns, countsOnly: bool, k: nat)
    requires Usable(fetch)
    requires k < 1 + |p.alternates|
    requires Readings(fetch.body.value, p, countsOnly)[k].Some?
    requires forall j :: 0 <= j < k ==> Readings(fetch.body.value, p, countsOnly)[j].None?
    ensures Respond(domain, fetch, p, countsOnly) == LookupResult(Readings(fetch.body.value, p, countsOnly)[k].value, true)
  {
    var rs := Readings(fetch.body.value, p, countsOnly);
    FirstSomeIsFirst(rs, k);
    assert ReadPage(domain, fetch.body.value, p, countsOnly) == LookupResult(rs[k].value, true);
  }

  /** The corrected lookup's count is that of the first pattern in order
      that yields a non-negative number. */
  lemma FirstPatternWins(domain: string, fetch: PageFetch, p: Patterns, k: nat)
    requires Usable(fetch)
    requires k < 1 + |p.alternates|
    requires Readings(fetch.body.value, p, true)[k].Some?
    requires forall j :: 0 <= j < k ==> Readings(fetch.body.value, p, true)[j].None?
    ensures CheckReports(domain, fetch, p) == LookupResult(Readings(fetch.body.value, p, true)[k].value, true)
  {
    FirstReadingWins(domain, fetch, p, true, k);
  }

  /** Reading `k + 1` in the lookup's order is that of alternate `k`. */
  lemma ReadingOfAlternate(html: string, p: Patterns, countsOnly: bool, k: nat)
    requires k < |p.alternates|
    ensures Readings(html, p, countsOnly)[k + 1] == Reading(p.alternates[k], html, countsOnly)
  {
  }

  /** When the primary pattern and the first `k` alternates miss, so do the
      first `k + 1` readings in the lookup's order. */
  lemma NoReadingBefore(html: string, p: Patterns, countsOnly: bool, k: nat)
    requires p.primary(html).None? && k <= |p.alternates|
    requires forall j :: 0 <= j < k ==> Reading(p.alternates[j], html, countsOnly).None?
    ensures forall j :: 0 <= j < k + 1 ==> Readings(html, p, countsOnly)[j].None?
  {
    forall j | 0 <= j < k + 1
      ensures Readings(html, p, countsOnly)[j].None?
    {
      if j > 0 {
        ReadingOfAlternate(html, p, countsOnly, j - 1);
      }
    }
  }

  /** When the primary pattern misses, the `for` loop over the alternates
      stops at the first one whose reading is accepted. */
  lemma AlternateWins(domain: string, fetch: PageFetch, p: Patterns, countsOnly: bool, k: nat)
    requires Usable(fetch) && p.primary(fetch.body.value).None?
    requires k < |p.alternates|
    requires forall j :: 0 <= j < k ==> Reading(p.alternates[j], fetch.body.value, countsOnly).None?
    requires Reading(p.alternates[k], fetch.body.value, countsOnly).Some?
    ensures Respond(domain, fetch, p, countsOnly) == LookupResult(Reading(p.alternates[k], fetch.body.value, countsOnly).value, true)
  {
    ReadingOfAlternate(fetch.body.value, p, countsOnly, k);
    NoReadingBefore(fetch.body.value, p, countsOnly, k);
    FirstReadingWins(domain, fetch, p, countsOnly, k + 1);
  }

  /** When no pattern yields a reading, the count is zero. */
  lemma NoReadingNoCount(domain: string, fetch: PageFetch, p: Patterns, countsOnly: bool)
    requires Usable(fetch) && p.primary(fetch.body.value).None?
    requires forall j :: 0 <= j < |p.alternates| ==> Reading(p.alternates[j], fetch.body.value, countsOnly).None?
    ensures Respond(domain, fetch, p, countsOnly).totalReports == 0
  {
    NoReadingBefore(fetch.body.value, p, countsOnly, |p.alternates|);
  }

  /** The outcome of one promise of `Promise.allSettled`. */
  datatype Settled<T> = Fulfilled(value: T) | Rejected

  /** `Promise.allSettled(links.map(lookup))`: the lookup never rejects, so
      every outcome is fulfilled, in the order of the links. Each request is
      its own fetch, so `lookup(i, l)` is the outcome of the request for the
      link `l` at position `i`: a link listed twice is looked up twice, and
      the two answers may differ. */
  function SettleAll(links: seq<string>, lookup: (nat, string) -> LookupResult): (rs: seq<Settled<LookupResult>>)
    ensures |rs| == |links|
    ensures forall i :: 0 <= i < |rs| ==> rs[i] == Fulfilled(lookup(i, links[i]))
  {
    seq(|links|, i requires 0 <= i < |links| => Fulfilled(lookup(i, links[i])))
  }

  /** The values of the fulfilled outcomes, in order. */
  function FulfilledValues<T>(rs: seq<Settled<T>>): (vs: seq<T>)
    ensures |vs| <= |rs|
    ensures (forall i :: 0 <= i < |rs| ==> rs[i].Fulfilled?) ==>
      |vs| == |rs| && forall i :: 0 <= i < |rs| ==> vs[i] == rs[i].value
  {
    if |rs| == 0 then []
    else (if rs[0].Fulfilled? then [rs[0].value] else []) + FulfilledValues(rs[1..])
  }

  /** `results.reduce((sum, r) => sum + r.totalReports, 0)`: with no
      negative count, the sum bounds every count. */
  function SumReports(rs: seq<LookupResult>): (sum: int)
    ensures (forall i :: 0 <= i < |rs| ==> rs[i].totalReports >= 0) ==>
      sum >= 0 && forall i :: 0 <= i < |rs| ==> rs[i].totalReports <= sum
  {
    if |rs| == 0 then 0 else SumReports(rs[..|rs| - 1]) + rs[|rs| - 1].totalReports
  }

  /** The lookups of `links`, one request per position. */
  function LookupsOf(links: seq<string>, lookup: (nat, string) -> LookupResult): (rs: seq<LookupResult>)
    ensures |rs| == |links|
    ensures forall i :: 0 <= i < |rs| ==> rs[i] == lookup(i, links[i])
  {
    seq(|links|, i requires 0 <= i < |links| => lookup(i, links[i]))
  }

  /** The report total the alert shows for a batch of new links. Nothing is
      lost between the lookups and the reduction: it is the sum over every
      request's count, in order. */
  function AggregateReports(links: seq<string>, lookup: (nat, string) -> LookupResult): (total: int)
    ensures total == SumReports(LookupsOf(links, lookup))
  {
    var rs := SettleAll(links, lookup);
    assert FulfilledValues(rs) == LookupsOf(links, lookup);
    SumReports(FulfilledValues(rs))
  }

  lemma {:induction false} SumReportsAppend(a: seq<LookupResult>, b: seq<LookupResult>)
    ensures SumReports(a + b) == SumReports(a) + SumReports(b)
    decreases |b|
  {
    if |b| > 0 {
      assert (a + b)[..|a + b| - 1] == a + b[..|b| - 1];
      SumReportsAppend(a, b[..|b| - 1]);
    } else {
      assert a + b == a;
    }
  }

  /** With non-negative counts, the sum is zero exactly when every count is. */
  lemma {:induction false} SumReportsZero(rs: seq<LookupResult>)
    requires forall i :: 0 <= i < |rs| ==> rs[i].totalReports >= 0
    ensures SumReports(rs) >= 0
    ensures SumReports(rs) == 0 <==> forall i :: 0 <= i < |rs| ==> rs[i].totalReports == 0
  {
    if |rs| > 0 {
      SumReportsZero(rs[..|rs| - 1]);
    }
  }

  /** The aggregate over links looked up by `CheckReports` is never negative,
      and is zero exactly when each lookup found no reports. */
  lemma AggregateOfCheckedLinks(links: seq<string>, lookup: (nat, string) -> LookupResult)
    requires forall i, d :: lookup(i, d).totalReports >= 0
    ensures AggregateReports(links, lookup) >= 0
    ensures AggregateReports(links, lookup) == 0 <==> forall i :: 0 <= i < |links| ==> lookup(i, links[i]).totalReports == 0
  {
    SumReportsZero(LookupsOf(links, lookup));
  }
}
