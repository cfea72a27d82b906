/** The monitor's notifier cycle (`checkForNewLinks`) as a pure step over an
    explicit state: fetch the phishing configuration, set the baseline on
    the first success, otherwise diff the current links against the
    baseline, send one aggregate alert for new links and replace the
    baseline. The configuration fetch, the lookups and the chat delivery are
    inputs of the step. */
module Monitor {
  import opened Wrappers
  import opened Text
  import opened Lookup
  import opened Messages

  /** The process-wide `lastKnownLinks` and `isInitialized`. */
  datatype MonitorState = MonitorState(lastKnownLinks: seq<string>, isInitialized: bool)

  const InitialState: MonitorState := MonitorState([], false)

  /** The two lists of the configuration that the monitor reads. */
  datatype PhishingConfig = PhishingConfig(blacklist: seq<string>, fuzzylist: seq<string>)

  /** The body of the configuration response: `Malformed` when it is not
      JSON or its `blacklist` or `fuzzylist` is missing or not an array. */
  datatype ConfigBody = Malformed | Config(config: PhishingConfig)

  /** The configuration request: a network error, or a response with its
      status and body. */
  datatype ConfigFetch = FetchError | Response(status: int, body: ConfigBody)

  /** The configuration the cycle works with. The status is never looked at:
      any response whose body parses is used. */
  function FetchedConfig(fetch: ConfigFetch): (r: Option<PhishingConfig>)
    ensures r.Some? <==> fetch.Response? && fetch.body.Config?
    ensures r.Some? ==> r.value == fetch.body.config
  {
    match fetch
    case FetchError => None
    case Response(_, Malformed) => None
    case Response(_, Config(c)) => Some(c)
  }

  /** `[...config.blacklist, ...config.fuzzylist]`: both lists, in order,
      duplicates kept. */
  function CurrentLinks(config: PhishingConfig): (links: seq<string>)
    ensures |links| == |config.blacklist| + |config.fuzzylist|
    ensures forall l :: l in links <==> l in config.blacklist || l in config.fuzzylist
  {
    config.blacklist + config.fuzzylist
  }

  /** `a` is `b` with some elements left out, order kept. */
  predicate IsSubsequence<T(==)>(a: seq<T>, b: seq<T>)
    decreases |b|
  {
    |a| == 0 || (|b| > 0 && if a[0] == b[0] then IsSubsequence(a[1..], b[1..]) else IsSubsequence(a, b[1..]))
  }

  /** `currentLinks.filter(link => !lastKnownLinks.includes(link))`: the
      links of `current`, in order and with their repetitions, that the
      baseline does not hold. */
  function NewLinks(current: seq<string>, known: seq<string>): (added: seq<string>)
    ensures forall l :: l in added <==> l in current && l !in known
    ensures forall l :: multiset(added)[l] == if l in known then 0 else multiset(current)[l]
    ensures IsSubsequence(added, current)
  {
    if |current| == 0 then []
    else
      var rest := NewLinks(current[1..], known);
      assert current == [current[0]] + current[1..];
      if current[0] in known then rest
      else
        assert ([current[0]] + rest)[1..] == rest;
        [current[0]] + rest
  }

  /** The outcome of one tick: the state after it, the message it sent (if
      any), and whether the chat received it. */
  datatype Tick = Tick(next: MonitorState, sent: Option<string>, delivered: bool)

  /** One run of `checkForNewLinks`. `lookup(i, l)` is the abuse-report
      lookup of the new link `l` at position `i` of the batch, each its own
      request; `sendOk` is whether the chat accepts a message, which the
      cycle never learns because sending swallows every error. */
  function Step(s: MonitorState, fetch: ConfigFetch, mode: Mode,
                lookup: (nat, string) -> LookupResult, sendOk: bool): (t: Tick)
    ensures FetchedConfig(fetch).None? ==> t.next == s && t.sent.None?
    ensures t.next.isInitialized <==> s.isInitialized || FetchedConfig(fetch).Some?
    ensures t.sent.Some? ==> (IsStartupNotice(t.sent.value) <==> !s.isInitialized)
    ensures t.sent.Some? ==> (IsAlert(t.sent.value) <==> s.isInitialized)
    ensures t.next != s ==> FetchedConfig(fetch).Some? && t.next.lastKnownLinks == CurrentLinks(FetchedConfig(fetch).value)
    ensures t.delivered <==> t.sent.Some? && sendOk
  {
    match FetchedConfig(fetch)
    case None => Tick(s, None, false)
    case Some(config) =>
      var current := CurrentLinks(config);
      if !s.isInitialized then
        Tick(MonitorState(current, true), Some(StartupMessage(mode, |current|)), sendOk)
      else
        var added := NewLinks(current, s.lastKnownLinks);
        if |added| > 0 then
          var msg := AlertMessage(added, |current|, AggregateReports(added, lookup));
          Tick(MonitorState(current, true), Some(msg), sendOk)
        else
          Tick(s, None, false)
  }

  /** A baseline compared with itself has nothing new. */
  lemma NothingNewAgainstItself(links: seq<string>)
    ensures NewLinks(links, links) == []
  {
  }

  /** After any successful tick every link of the fetched configuration is
      in the baseline: committed wholesale when something was new, already
      there when nothing was. */
  lemma SuccessCoversFetchedLinks(s: MonitorState, fetch: ConfigFetch, mode: Mode,
                                  lookup: (nat, string) -> LookupResult, sendOk: bool)
    requires FetchedConfig(fetch).Some?
    ensures Step(s, fetch, mode, lookup, sendOk).next.isInitialized
    ensures forall l :: l in CurrentLinks(FetchedConfig(fetch).value) ==> l in Step(s, fetch, mode, lookup, sendOk).next.lastKnownLinks
  {
  }

  /** Running the cycle again on the same configuration sends nothing and
      changes nothing, whatever happened to the first message: a batch of
      new links is alerted at most once. */
  lemma NoDuplicateAlert(s: MonitorState, fetch: ConfigFetch, mode: Mode,
                         lookup: (nat, string) -> LookupResult, sendOk: bool,
                         lookup': (nat, string) -> LookupResult, sendOk': bool)
    ensures var t := Step(s, fetch, mode, lookup, sendOk);
            Step(t.next, fetch, mode, lookup', sendOk') == Tick(t.next, None, false)
  {
    if FetchedConfig(fetch).Some? {
      var t := Step(s, fetch, mode, lookup, sendOk);
      SuccessCoversFetchedLinks(s, fetch, mode, lookup, sendOk);
      QuietTickKeepsBaseline(t.next, fetch, mode, lookup', sendOk');
    }
  }

  /** The chat's answer does not reach the state: the baseline is committed
      whether or not the message arrived, so a lost alert is never resent. */
  lemma CommitIgnoresDelivery(s: MonitorState, fetch: ConfigFetch, mode: Mode, lookup: (nat, string) -> LookupResult)
    ensures Step(s, fetch, mode, lookup, true).next == Step(s, fetch, mode, lookup, false).next
    ensures Step(s, fetch, mode, lookup, true).sent == Step(s, fetch, mode, lookup, false).sent
  {
  }

  /** When every fetched link is already known, the tick is silent and the
      baseline stays as it was, even if links have disappeared from the list. */
  lemma QuietTickKeepsBaseline(s: MonitorState, fetch: ConfigFetch, mode: Mode,
                               lookup: (nat, string) -> LookupResult, sendOk: bool)
    requires s.isInitialized && FetchedConfig(fetch).Some?
    requires forall l :: l in CurrentLinks(FetchedConfig(fetch).value) ==> l in s.lastKnownLinks
    ensures Step(s, fetch, mode, lookup, sendOk) == Tick(s, None, false)
  {
  }

  /** The first successful fetch makes the fetched list the baseline and
      sends exactly the startup notice, which gives the number of links. */
  lemma FirstSuccessSendsStartupNotice(s: MonitorState, fetch: ConfigFetch, mode: Mode,
                                       lookup: (nat, string) -> LookupResult, sendOk: bool)
    requires !s.isInitialized && FetchedConfig(fetch).Some?
    ensures var current := CurrentLinks(FetchedConfig(fetch).value);
            var t := Step(s, fetch, mode, lookup, sendOk);
            && t.next == MonitorState(current, true)
            && t.sent == Some(StartupMessage(mode, |current|))
            && IsInfix("Monitoring " + NatToString(|current|) + " known phishing links\n", t.sent.value)
  {
  }

  /** A tick that finds new links sends one alert naming each of them, with
      the length of the fetched list (duplicates counted) and the report
      total of their lookups, and makes the fetched list the baseline. */
  lemma AlertTick(s: MonitorState, fetch: ConfigFetch, mode: Mode,
                  lookup: (nat, string) -> LookupResult, sendOk: bool, link: string)
    requires s.isInitialized && FetchedConfig(fetch).Some?
    requires link in CurrentLinks(FetchedConfig(fetch).value) && link !in s.lastKnownLinks
    ensures var current := CurrentLinks(FetchedConfig(fetch).value);
            var added := NewLinks(current, s.lastKnownLinks);
            var t := Step(s, fetch, mode, lookup, sendOk);
            && t.next == MonitorState(current, true)
            && t.sent.Some? && IsAlert(t.sent.value)
            && (forall l :: l in added ==> IsInfix(CodeTag(l), t.sent.value))
            && IsInfix(TotalText(|current|), t.sent.value)
            && (AggregateReports(added, lookup) > 0 ==> IsInfix(FoundText(AggregateReports(added, lookup)), t.sent.value))
            && (IsSuffix(NoReportsLine + Footer, t.sent.value) <==> AggregateReports(added, lookup) <= 0)
  {
    var current := CurrentLinks(FetchedConfig(fetch).value);
    assert link in NewLinks(current, s.lastKnownLinks);
  }

  /** The inputs of one tick. */
  datatype TickInput = TickInput(fetch: ConfigFetch, lookup: (nat, string) -> LookupResult, sendOk: bool)

  /** A sequence of ticks from state `s`: the final state and the messages
      sent, in order. */
  function Run(s: MonitorState, mode: Mode, inputs: seq<TickInput>): (r: (MonitorState, seq<string>))
    ensures |r.1| <= |inputs|
    ensures (forall i :: 0 <= i < |inputs| ==> FetchedConfig(inputs[i].fetch).None?) ==> r == (s, [])
  {
    if |inputs| == 0 then (s, [])
    else
      var before := Run(s, mode, inputs[..|inputs| - 1]);
      var last := inputs[|inputs| - 1];
      var t := Step(before.0, last.fetch, mode, last.lookup, last.sendOk);
      (t.next, before.1 + (if t.sent.Some? then [t.sent.value] else []))
  }

  /** The configuration of the last successful fetch among the inputs. */
  function LatestConfig(inputs: seq<TickInput>): Option<PhishingConfig>
  {
    if |inputs| == 0 then None
    else match FetchedConfig(inputs[|inputs| - 1].fetch)
      case Some(c) => Some(c)
      case None => LatestConfig(inputs[..|inputs| - 1])
  }

  /** How many of the messages are startup notices. */
  function StartupCount(msgs: seq<string>): nat
  {
    if |msgs| == 0 then 0
    else StartupCount(msgs[..|msgs| - 1]) + (if IsStartupNotice(msgs[|msgs| - 1]) then 1 else 0)
  }

  lemma {:induction false} StartupCountAppend(a: seq<string>, b: seq<string>)
    ensures StartupCount(a + b) == StartupCount(a) + StartupCount(b)
    decreases |b|
  {
    if |b| == 0 {
      assert a + b == a;
    } else {
      assert (a + b)[..|a + b| - 1] == a + b[..|b| - 1];
      StartupCountAppend(a, b[..|b| - 1]);
    }
  }

  /** The startup notice is sent at most once over any run, never once the
      monitor is initialized, and the run ends initialized exactly when it
      started so or some fetch succeeded; every other message is an alert. */
  lemma {:induction false} StartupAtMostOnce(s: MonitorState, mode: Mode, inputs: seq<TickInput>)
    ensures var (final, msgs) := Run(s, mode, inputs);
            && (final.isInitialized <==> s.isInitialized || LatestConfig(inputs).Some?)
            && StartupCount(msgs) == (if final.isInitialized && !s.isInitialized then 1 else 0)
            && forall m :: m in msgs ==> IsStartupNotice(m) || IsAlert(m)
  {
    if |inputs| > 0 {
      var prefix := inputs[..|inputs| - 1];
      StartupAtMostOnce(s, mode, prefix);
      var before := Run(s, mode, prefix);
      var last := inputs[|inputs| - 1];
      var t := Step(before.0, last.fetch, mode, last.lookup, last.sendOk);
      var sent := if t.sent.Some? then [t.sent.value] else [];
      StartupCountAppend(before.1, sent);
      if t.sent.Some? {
        assert StartupCount(sent) == StartupCount([]) + (if IsStartupNotice(t.sent.value) then 1 else 0);
      }
    }
  }

  /** Every link of the latest successfully fetched list is in the baseline
      after a run. The baseline may hold more: links that have since left the
      list stay until some tick finds a new one. */
  lemma {:induction false} BaselineCoversLatestList(s: MonitorState, mode: Mode, inputs: seq<TickInput>)
    requires LatestConfig(inputs).Some?
    ensures forall l :: l in CurrentLinks(LatestConfig(inputs).value) ==> l in Run(s, mode, inputs).0.lastKnownLinks
  {
    var prefix := inputs[..|inputs| - 1];
    var last := inputs[|inputs| - 1];
    var before := Run(s, mode, prefix);
    if FetchedConfig(last.fetch).Some? {
      SuccessCoversFetchedLinks(before.0, last.fetch, mode, last.lookup, last.sendOk);
    } else {
      BaselineCoversLatestList(s, mode, prefix);
    }
  }

  /** A known link stays known, and so is never reported as new, for as
      long as every successful fetch still lists it. */
  lemma {:induction false} KnownLinkStaysKnown(s: MonitorState, mode: Mode, inputs: seq<TickInput>, link: string)
    requires link in s.lastKnownLinks
    requires forall i :: 0 <= i < |inputs| && FetchedConfig(inputs[i].fetch).Some? ==>
      link in CurrentLinks(FetchedConfig(inputs[i].fetch).value)
    ensures link in Run(s, mode, inputs).0.lastKnownLinks
  {
    if |inputs| > 0 {
      var prefix := inputs[..|inputs| - 1];
      assert forall i :: 0 <= i < |prefix| ==> prefix[i] == inputs[i];
      KnownLinkStaysKnown(s, mode, prefix, link);
    }
  }
}
