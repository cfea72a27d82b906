/** Concrete runs of the cycle and the lookup: the behaviour promised for
    particular inputs, and the inputs on which the lookup as written reports
    a negative count. */
module Scenarios {
  import opened Wrappers
  import opened Text
  import opened Lookup
  import opened Messages
  import opened Monitor

  function Links(blacklist: seq<string>, fuzzylist: seq<string>): ConfigFetch {
    Response(200, Config(PhishingConfig(blacklist, fuzzylist)))
  }

  lemma NewLinksABC()
    ensures NewLinks(["a", "b", "c"], ["a", "b"]) == ["c"]
  {
    var known := ["a", "b"];
    var current := ["a", "b", "c"];
    assert current[1..] == ["b", "c"];
    assert current[1..][1..] == ["c"];
    assert NewLinks(["c"], known) == ["c"];
    assert NewLinks(["b", "c"], known) == ["c"];
  }

  lemma FormatThree()
    ensures TotalText(3) == "Total MetaMask links now: 3\n"
    ensures CodeTag("c") == "<code>c</code>"
  {
    assert NatToString(3) == "3";
  }

  /** With a baseline of `a` and `b`, a list `a`, `b`, `c` alerts about `c`
      alone, gives the new total 3 and commits the list. */
  lemma OneNewLink(mode: Mode, lookup: (nat, string) -> LookupResult, sendOk: bool)
    ensures var t := Step(MonitorState(["a", "b"], true), Links(["a", "b", "c"], []), mode, lookup, sendOk);
            && t.next == MonitorState(["a", "b", "c"], true)
            && t.sent.Some? && IsAlert(t.sent.value)
            && IsInfix("<code>c</code>", t.sent.value)
            && IsInfix("Total MetaMask links now: 3\n", t.sent.value)
  {
    var s := MonitorState(["a", "b"], true);
    var current := ["a", "b", "c"];
    var fetch := Links(current, []);
    assert FetchedConfig(fetch) == Some(PhishingConfig(current, []));
    assert CurrentLinks(PhishingConfig(current, [])) == current;
    assert "c" in current;
    AlertTick(s, fetch, mode, lookup, sendOk, "c");
    NewLinksABC();
    FormatThree();
  }

  /** A link that leaves the list is not dropped from the baseline when
      nothing new appears: the baseline no longer equals the fetched list. */
  lemma RemovalIsNotCommitted(mode: Mode, lookup: (nat, string) -> LookupResult, sendOk: bool)
    ensures var t := Step(MonitorState(["a", "b"], true), Links(["a"], []), mode, lookup, sendOk);
            t.next.lastKnownLinks == ["a", "b"] && t.sent.None?
  {
    QuietTickKeepsBaseline(MonitorState(["a", "b"], true), Links(["a"], []), mode, lookup, sendOk);
  }

  /** A page that shows five scam reports. */
  const FivePage: string := "5 Scam Reports"

  /** A page whose "Reports submitted for" element reads `-5`. */
  const MinusFivePage: string := "Reports submitted for <b>-5</b>"

  /** `(\d+)\s+Scam\s+Reports?` on the two pages: it matches only the first. */
  function ScamReportsMatch(html: string): Option<nat> {
    if html == FivePage then Some(5) else None
  }

  /** `Reports\s+submitted\s+for[^>]*>([^<]*)<` on the two pages: it
      matches only the second, capturing `-5`. */
  function SubmittedForMatch(html: string): Option<string> {
    if html == MinusFivePage then Some("-5") else None
  }

  /** `(\d+)\s+reports?\s+found` and `Total\s+reports?:\s*(\d+)` on the two
      pages: neither matches. */
  function NoMatch(html: string): Option<string> {
    None
  }

  /** The one list of patterns every lookup applies, in the order tried. */
  function SitePatterns(): Patterns {
    Patterns(ScamReportsMatch, [SubmittedForMatch, NoMatch, NoMatch])
  }

  lemma ParseMinusFive()
    ensures ParseInt("-5") == Some(-5)
  {
    assert NatToString(5) == "5";
    ParseIntOfNumberText("", "-", 0, 5, "");
    assert "" + "-" + Zeros(0) + "5" + "" == "-5";
  }

  /** The `Reports submitted for` pattern on the `-5` page reads -5, which
      only the lookup as written accepts. */
  lemma ReadMinusFive(html: string)
    requires html == MinusFivePage
    ensures Reading(SubmittedForMatch, html, false) == Some(-5)
    ensures Reading(SubmittedForMatch, html, true) == None
  {
    assert SubmittedForMatch(html) == Some("-5");
    ParseMinusFive();
    ReadingOfNumber(SubmittedForMatch, html, "-5", -5);
  }

  /** No pattern but `Reports submitted for` matches the `-5` page. */
  lemma OtherPatternsMissMinusFive(html: string)
    requires html == MinusFivePage
    ensures SitePatterns().primary(html) == None
  {
    assert |html| != |FivePage|;
  }

  /** As written, the lookup takes `-5` from the first alternate pattern as
      the report count. */
  lemma AsWrittenAcceptsNegativeCount(domain: string, html: string)
    requires html == MinusFivePage
    ensures CheckReportsAsWritten(domain, Page(200, Some(html)), SitePatterns()) == LookupResult(-5, true)
  {
    OtherPatternsMissMinusFive(html);
    ReadMinusFive(html);
    AlternateWins(domain, Page(200, Some(html)), SitePatterns(), false, 0);
  }

  /** The corrected lookup skips the `-5`: no pattern yields a count, so the
      link has no reports. */
  lemma CorrectedSkipsNegativeCount(domain: string, html: string)
    requires html == MinusFivePage
    ensures CheckReports(domain, Page(200, Some(html)), SitePatterns()).totalReports == 0
  {
    OtherPatternsMissMinusFive(html);
    NoCountOnMinusFivePage(html);
    NoReadingNoCount(domain, Page(200, Some(html)), SitePatterns(), true);
  }

  /** With the corrected rule, no alternate pattern reads a count from the
      `-5` page. */
  lemma NoCountOnMinusFivePage(html: string)
    requires html == MinusFivePage
    ensures forall j :: 0 <= j < |SitePatterns().alternates| ==> Reading(SitePatterns().alternates[j], html, true).None?
  {
    var alts := SitePatterns().alternates;
    forall j | 0 <= j < |alts|
      ensures Reading(alts[j], html, true).None?
    {
      if j == 0 {
        ReadMinusFive(html);
      } else {
        assert alts[j] == NoMatch;
      }
    }
  }

  lemma FivePageLookups(domain: string, html: string)
    requires html == FivePage
    ensures CheckReportsAsWritten(domain, Page(200, Some(html)), SitePatterns()) == LookupResult(5, true)
    ensures CheckReports(domain, Page(200, Some(html)), SitePatterns()) == LookupResult(5, true)
  {
    PrimaryWins(domain, Page(200, Some(html)), SitePatterns(), false);
  }

  lemma SumOfTwo(a: LookupResult, b: LookupResult)
    ensures SumReports([a, b]) == a.totalReports + b.totalReports
  {
    assert [a, b][..1] == [a];
    assert [a][..0] == [];
    assert SumReports([a]) == a.totalReports;
  }

  /** Against an empty baseline both links are new, even when they are the
      same link listed twice. */
  lemma NewLinksOfTwo(u: string, v: string)
    ensures NewLinks([u, v], []) == [u, v]
  {
    assert [u, v][1..] == [v];
    assert NewLinks([v], []) == [v];
  }

  lemma FormatFive()
    ensures FoundText(5) == "Found <b>5</b> reports total"
  {
    assert NatToString(5) == "5";
  }

  /** The first request times out; the second finds the five-report page. */
  function TimeoutThenFive(i: nat, d: string): LookupResult {
    CheckReports(d, if i == 0 then Unreachable else Page(200, Some(FivePage)), SitePatterns())
  }

  /** The page the request at position `i` gets: five reports first, `-5`
      after. */
  function PageAt(i: nat): string {
    if i == 0 then FivePage else MinusFivePage
  }

  /** The lookup as written on those pages. */
  function FiveThenMinusFiveAsWritten(i: nat, d: string): LookupResult {
    CheckReportsAsWritten(d, Page(200, Some(PageAt(i))), SitePatterns())
  }

  /** The corrected lookup on the same pages. */
  function FiveThenMinusFive(i: nat, d: string): LookupResult {
    CheckReports(d, Page(200, Some(PageAt(i))), SitePatterns())
  }

  lemma AggregateOfTwo(u: string, v: string, lookup: (nat, string) -> LookupResult)
    ensures AggregateReports([u, v], lookup) == lookup(0, u).totalReports + lookup(1, v).totalReports
  {
    assert LookupsOf([u, v], lookup) == [lookup(0, u), lookup(1, v)];
    SumOfTwo(lookup(0, u), lookup(1, v));
  }

  /** An alert for a blacklist entry `u` and a fuzzylist entry `v`, new
      against an empty baseline, whose lookups add up to `a + b` reports. */
  lemma AlertForTwo(mode: Mode, lookup: (nat, string) -> LookupResult, sendOk: bool,
                    u: string, v: string, a: int, b: int)
    requires lookup(0, u).totalReports == a && lookup(1, v).totalReports == b
    ensures var t := Step(MonitorState([], true), Links([u], [v]), mode, lookup, sendOk);
            && t.sent.Some?
            && (a + b > 0 ==> IsInfix(FoundText(a + b), t.sent.value))
            && (IsSuffix(NoReportsLine + Footer, t.sent.value) <==> a + b <= 0)
  {
    var s := MonitorState([], true);
    var fetch := Links([u], [v]);
    var current := CurrentLinks(FetchedConfig(fetch).value);
    assert current == [u, v];
    assert u in current;
    NewLinksOfTwo(u, v);
    AggregateOfTwo(u, v, lookup);
    AlertTick(s, fetch, mode, lookup, sendOk, u);
  }

  /** One lookup times out and one finds five reports: the alert still goes
      out and reports five in total. This holds as well when `u` and `v` are
      one link listed in both lists, looked up twice. */
  lemma TimeoutDoesNotSuppressAlert(mode: Mode, sendOk: bool, u: string, v: string)
    ensures var t := Step(MonitorState([], true), Links([u], [v]), mode, TimeoutThenFive, sendOk);
            t.sent.Some? && IsInfix("Found <b>5</b> reports total", t.sent.value)
  {
    FivePageLookups(v, FivePage);
    assert TimeoutThenFive(0, u) == NotFound;
    assert TimeoutThenFive(1, v) == LookupResult(5, true);
    AlertForTwo(mode, TimeoutThenFive, sendOk, u, v, 0, 5);
    FormatFive();
  }

  /** As written, that negative count cancels a real one: one link with five
      reports and one whose page reads `-5` make an alert that says no
      reports were found. */
  lemma AsWrittenHidesReports(mode: Mode, sendOk: bool, u: string, v: string)
    ensures var t := Step(MonitorState([], true), Links([u], [v]), mode, FiveThenMinusFiveAsWritten, sendOk);
            t.sent.Some? && IsSuffix(NoReportsLine + Footer, t.sent.value)
  {
    FivePageLookups(u, FivePage);
    AsWrittenAcceptsNegativeCount(v, MinusFivePage);
    assert FiveThenMinusFiveAsWritten(0, u).totalReports == 5;
    assert FiveThenMinusFiveAsWritten(1, v).totalReports == -5;
    AlertForTwo(mode, FiveThenMinusFiveAsWritten, sendOk, u, v, 5, -5);
  }

  /** The corrected lookup reports the five on the same pages. */
  lemma CorrectedReportsFive(mode: Mode, sendOk: bool, u: string, v: string)
    ensures var t := Step(MonitorState([], true), Links([u], [v]), mode, FiveThenMinusFive, sendOk);
            t.sent.Some? && IsInfix("Found <b>5</b> reports total", t.sent.value)
  {
    FivePageLookups(u, FivePage);
    CorrectedSkipsNegativeCount(v, MinusFivePage);
    assert FiveThenMinusFive(0, u).totalReports == 5;
    assert FiveThenMinusFive(1, v).totalReports == 0;
    AlertForTwo(mode, FiveThenMinusFive, sendOk, u, v, 5, 0);
    FormatFive();
  }
}
