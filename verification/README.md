# Phishing-list monitor: the notifier cycle in Dafny

The monitor polls the MetaMask phishing configuration (`blacklist` and
`fuzzylist`). It keeps the last known list in memory. When links appear that
are not in that list, it sends one aggregate Telegram alert. Each alert is
enriched with abuse-report counts scraped from ChainAbuse pages. This project
models that cycle, `checkForNewLinks`, as a pure step over an explicit state.
It also models the pure parts of the ChainAbuse lookup and the reduction of
lookup results to one report total.

Modules:

- `Wrappers`: `Option`.
- `Text`: JavaScript `startsWith`/`endsWith`/`includes`, the decimal text of a
  non-negative integer, and `parseInt(s, 10)` (leading white space, optional
  sign, longest digit run, NaN as `None`).
- `Uri`: `encodeURIComponent` (UTF-8 then percent-escaping), with a
  `decodeURIComponent` as its inverse.
- `Lookup`: the URL-prefix rule, the lookup URL, the ordered
  first-pattern-wins extraction with its fallback, the error paths, and the
  `Promise.allSettled` plus `reduce` summation.
- `Messages`: the startup notice and the alert text, character for character.
- `Monitor`: the state `{lastKnownLinks, isInitialized}`, the diff, the
  step, and runs of many steps.
- `Scenarios`: concrete inputs. These are worked examples, plus the inputs
  behind the finding below.

Network calls are inputs. The configuration fetch is a `ConfigFetch`. Each
lookup's page request is a `PageFetch`. Whether Telegram accepted a message
is a `sendOk` flag that the cycle never reads, because `sendTelegramMessage`
swallows every error. The step takes the lookups as a function parameter
`lookup(i, l)`: the result of the request for the new link `l` at position
`i` of the batch. Each position is its own request, so a link listed twice
is looked up twice and the two answers may differ. `Lookup.CheckReports`
applied to that request's page is the intended instance.

Points where the code's behaviour is easy to misread:

- The two lists are concatenated and filtered as sequences, so order and
  duplicates are kept, and the alert's total counts duplicates.
- Removals are not committed: the baseline changes only when something is
  new (`Scenarios.RemovalIsNotCommitted`).
- The status of the configuration response is never checked. Any response
  whose body parses with both arrays is used (`Monitor.FetchedConfig`).
- A link with no scheme and the same link behind `https://` query the same
  page (`Lookup.SchemeIsOptional`).

## Model

| member | source | states |
|---|---|---|
| Text.NatToString | app/api/monitor/route.ts:185 | the decimal text of a count has at least one digit, only digits, and no leading zero |
| Text.ParseInt | app/api/monitor/route.ts:85-86 | `parseInt(s, 10)` gives a number only if the text holds a digit, and a negative one only after a leading minus sign |
| Text.ParseIntOfNumberText | app/api/monitor/route.ts:85-86 | after white space and an optional sign, the decimal text of a number with any count of leading zeros (so every digit run), followed by a non-digit, reads as exactly that number, negated after `-` |
| Text.ParseIntOfNoDigit | app/api/monitor/route.ts:85-86 | when the first character after the white space and the sign is not a digit, `parseInt` gives NaN |
| Text.ParseIntOfNatToString | app/api/monitor/route.ts:185 | `parseInt` reads back exactly the count that was printed |
| Uri.Encode | app/api/monitor/route.ts:41 | `encodeURIComponent` output holds only unreserved characters and `%`, so no `/`, `?` or `#` |
| Uri.DecodeEncode | app/api/monitor/route.ts:41 | percent-decoding the encoded text gives back the original string, for every string |
| Lookup.FullUrl | app/api/monitor/route.ts:40 | the queried URL starts with `http` and ends with the link; it equals the link exactly when the link already starts with `http` |
| Lookup.FullUrlIdempotent | app/api/monitor/route.ts:40 | prefixing twice is the same as prefixing once |
| Lookup.LookupUrl | app/api/monitor/route.ts:40-42 | the lookup URL is the ChainAbuse domain path followed by one path segment |
| Lookup.LookupUrlIdentifiesLink | app/api/monitor/route.ts:40-42 | the segment after the base decodes to the full URL of the link, so distinct full URLs query distinct pages |
| Lookup.SamePageIffSameUrl | app/api/monitor/route.ts:40-42 | two links query the same page if and only if their full URLs are equal |
| Lookup.SchemeIsOptional | app/api/monitor/route.ts:40-42 | a link not starting with `http` and the same link behind `https://` query the same page |
| Lookup.StripScheme | app/api/monitor/route.ts:94 | a link without `http://` or `https://` anywhere is unchanged; one at the front is removed; the result is 0, 7 or 8 characters shorter |
| Lookup.StripSchemeRemovesLeftmost | app/api/monitor/route.ts:94 | the scheme removed is the leftmost one, wherever it starts, and the text around it is kept |
| Lookup.Reading | app/api/monitor/route.ts:82-90 | a pattern gives a reading exactly when it matches and `parseInt` reads its capture as a number, which under the corrected rule must not be negative; so no match or NaN lets the loop go on to the next pattern |
| Lookup.ReadingOfNumber | app/api/monitor/route.ts:83-89 | a match whose capture `parseInt` reads as `v` yields `v` as written, and yields it under the corrected rule exactly when `v` is not negative |
| Lookup.FirstSome | app/api/monitor/route.ts:67-91 | the result is absent exactly when every reading is absent; otherwise it is the value of a reading that all earlier readings failed to produce |
| Lookup.FirstSomeIsFirst | app/api/monitor/route.ts:82-91 | the first present reading is the one chosen |
| Lookup.ReadPage | app/api/monitor/route.ts:64-100 | a non-zero count implies `found`; with no reading, the count is 0 and `found` holds exactly when the page mentions `chainabuse` and the scheme-stripped link |
| Lookup.Respond | app/api/monitor/route.ts:37-106 | a page that cannot be read (network error, timeout, non-2xx, no body) gives `{0, false}`; a non-zero count implies `found`; the corrected rule never gives a negative count |
| Lookup.CheckReportsAsWritten | app/api/monitor/route.ts:37-106 | every failure path (network, timeout, non-2xx, unreadable body) yields `{0, false}`; a non-zero count implies `found` |
| Lookup.CheckReports | app/api/monitor/route.ts:37-106 | the lookup never fails outwardly, every failure path yields `{0, false}`, the count is never negative, and a primary-pattern match decides the count |
| Lookup.PrimaryWins | app/api/monitor/route.ts:67-73 | a match of `(\d+) Scam Reports` decides the result before any alternate is tried |
| Lookup.FirstReadingWins | app/api/monitor/route.ts:67-91 | on a usable page the count is that of the first pattern in order that yields one |
| Lookup.FirstPatternWins | app/api/monitor/route.ts:67-91 | the same for the corrected lookup |
| Lookup.AlternateWins | app/api/monitor/route.ts:82-89 | when the primary pattern misses, the first alternate whose reading is accepted gives the count, with `found` set |
| Lookup.NoReadingNoCount | app/api/monitor/route.ts:82-100 | when no pattern yields a reading, the count is 0 |
| Lookup.SettleAll | app/api/monitor/route.ts:156-161 | every lookup settles as fulfilled, one per new link, in order |
| Lookup.FulfilledValues | app/api/monitor/route.ts:165-168 | when every outcome is fulfilled, none is dropped and the order is kept |
| Lookup.SumReports | app/api/monitor/route.ts:170 | with non-negative counts the sum is non-negative and no count exceeds it |
| Lookup.SumReportsAppend | app/api/monitor/route.ts:170 | the report sum over two batches is the sum of their sums |
| Lookup.SumReportsZero | app/api/monitor/route.ts:170 | with non-negative counts the sum is non-negative, and it is zero exactly when every count is zero |
| Lookup.AggregateReports | app/api/monitor/route.ts:156-170 | the alert's total is the sum of the counts of every new link's lookup, each at its own position |
| Lookup.AggregateOfCheckedLinks | app/api/monitor/route.ts:164-170 | with never-negative lookups, the total is non-negative and zero exactly when every lookup found no reports |
| Messages.NoticeIsNotAlert | app/api/monitor/route.ts:141-173 | no message is both a startup notice and an alert |
| Messages.StartupMessage | app/api/monitor/route.ts:137-145 | the startup notice is not an alert, and it states the mode and the number of known links |
| Messages.CodeLines | app/api/monitor/route.ts:179-181 | every link of the batch appears in a `<code>` tag |
| Messages.LinksSection | app/api/monitor/route.ts:175-183 | exactly one new link gets the "New link on MetaMask phishing list" form with that link; any other count gets the "Found N new links" list form; every new link appears in a `<code>` tag |
| Messages.LinkFormsDiffer | app/api/monitor/route.ts:175-183 | no text starts with both the single-link head and the list head |
| Messages.ReportsLine | app/api/monitor/route.ts:188-192 | the line says "No reports found" exactly when the total is not positive, and otherwise states the total |
| Messages.AlertMessage | app/api/monitor/route.ts:173-194 | the alert is not a startup notice; after its header it continues with the single-link form for exactly one new link and the list form otherwise; it names every new link, states the list's total, states a positive report total, and ends in "No reports found" exactly when the total is not positive |
| Messages.FoundLineIsNotNoReports | app/api/monitor/route.ts:188-192 | a message ending in a "Found N reports" line cannot also end in the "No reports found" line |
| Monitor.FetchedConfig | app/api/monitor/route.ts:27-35 | a configuration is used exactly when the response body parsed; the status is ignored |
| Monitor.CurrentLinks | app/api/monitor/route.ts:132 | the current links are both lists, their lengths added, holding exactly the links of either |
| Monitor.NewLinks | app/api/monitor/route.ts:150 | the new links are exactly the current links not in the baseline: same membership, same multiplicities, original order |
| Monitor.Step | app/api/monitor/route.ts:129-206 | a failed fetch changes nothing and sends nothing; the first success initializes and sends only the startup notice; later messages are alerts; the baseline only ever becomes the fetched list; delivery is the send flag |
| Monitor.FirstSuccessSendsStartupNotice | app/api/monitor/route.ts:134-146 | the first successful fetch makes the fetched list the baseline and sends exactly the startup notice, which says "Monitoring N known phishing links" for the list's length N |
| Monitor.NothingNewAgainstItself | app/api/monitor/route.ts:150 | a list diffed against itself has nothing new |
| Monitor.SuccessCoversFetchedLinks | app/api/monitor/route.ts:134-136 | after a successful tick every fetched link is in the baseline and the monitor is initialized |
| Monitor.NoDuplicateAlert | app/api/monitor/route.ts:150-199 | a second tick on the same configuration sends nothing and changes nothing, whatever the first send did and whatever its lookups return |
| Monitor.CommitIgnoresDelivery | app/api/monitor/route.ts:196-199 | the next state and the message are the same whether or not the chat accepted the message |
| Monitor.QuietTickKeepsBaseline | app/api/monitor/route.ts:200-202 | when every fetched link is known, the tick is silent and the baseline is kept, with removed links still in it |
| Monitor.AlertTick | app/api/monitor/route.ts:152-199 | a tick that finds a new link commits the fetched list and sends one alert naming every new link, with the list's total and the report total |
| Monitor.Run | app/api/monitor/route.ts:218-223 | repeated ticks send at most one message each, and ticks whose fetches all fail change nothing and send nothing |
| Monitor.StartupCountAppend | app/api/monitor/route.ts:141-146 | startup notices in two message sequences add up |
| Monitor.StartupAtMostOnce | app/api/monitor/route.ts:134-147 | over any run the startup notice is sent at most once and never after initialization; every other message is an alert |
| Monitor.BaselineCoversLatestList | app/api/monitor/route.ts:150-202 | after any run the baseline holds every link of the latest successfully fetched list |
| Monitor.KnownLinkStaysKnown | app/api/monitor/route.ts:199-202 | a known link stays known, and so is never new again, while every successful fetch still lists it |
| Scenarios.OneNewLink | app/api/monitor/route.ts:150-185 | with baseline `a`, `b` and list `a`, `b`, `c`, the alert names `c` and gives total 3, and the list is committed |
| Scenarios.RemovalIsNotCommitted | app/api/monitor/route.ts:200-202 | when `b` leaves the list and nothing is new, the baseline still holds `b` |
| Scenarios.TimeoutDoesNotSuppressAlert | app/api/monitor/route.ts:102-105 | one request timing out and one finding five reports still give an alert reporting five, also when both requests are for one link listed twice |
| Scenarios.AsWrittenAcceptsNegativeCount | app/api/monitor/route.ts:77-89 | as written, a page whose "Reports submitted for" element reads `-5` yields a count of -5 |
| Scenarios.CorrectedSkipsNegativeCount | app/api/monitor/route.ts:77-89 | with the corrected rule, the same page yields no count |
| Scenarios.AsWrittenHidesReports | app/api/monitor/route.ts:164-192 | as written, five reports on one page and `-5` on another give an alert that says "No reports found" |
| Scenarios.CorrectedReportsFive | app/api/monitor/route.ts:164-192 | with the corrected lookup, the same pages give an alert reporting five |

## Left out

- HTTP is not modelled: the configuration fetch, the ChainAbuse request and the Telegram POST are inputs. The ChainAbuse request's 10-second abort (app/api/monitor/route.ts line 56) is the `Unreachable` outcome, like any network error. The Telegram POST's 10-second abort (line 122) is one of the ways `sendOk` is false.
- The configuration fetch (lines 28-33) has no timeout, so a stalled response keeps that tick pending for ever. The model has no outcome for a tick that never finishes: every `ConfigFetch` is a completed response or an error.
- The regular expressions are opaque matchers. Each returns its first capture. The primary pattern returns the number directly, because its capture is a digit run.
- JavaScript numbers are modelled as unbounded integers. So `parseInt` of more than 15 digits is exact, and the exponent form of counts at or above 10^21 is not modelled.
- `encodeURIComponent` throws on a lone surrogate (the error is caught and yields not found). Dafny characters are scalar values, so this case cannot arise.
- `Promise.allSettled` is a sequential map. The lookup never rejects, so nothing depends on timing. Overlapping ticks are not modelled.
- The configuration body is either well formed or `Malformed`. JSON fields that are iterable but not arrays, such as a string spread into its characters, are not modelled.
- `Monitor.Run` runs ticks one after another, each finishing before the next starts. The 60-second period, `startMonitoring`'s `monitorInterval` guard and the production auto-trigger are left out, as are the `GET`/`POST` status handlers, environment variables, console logging, `app/page.tsx`, `app/layout.tsx` and `next.config.ts`. None of them touch the cycle's logic.
- The process mode from `NODE_ENV` is a `Mode` parameter.
- Messages.AlertMessage: this states that every new link appears inside a `<code>` tag. It does not state that the alert lists exactly the new links in order, because a link's own text may contain the same tags.

## Findings

| source | as written | input that shows it | evidently intended | confidence | as-written member | corrected member |
|---|---|---|---|---|---|---|
| app/api/monitor/route.ts:77-89 | An alternate pattern's capture is accepted whenever `parseInt` is not NaN, so `([^<]*)` after "Reports submitted for" can yield a negative count. That count is added into the alert's total. | Two new links. One page shows `5 Scam Reports`. The other page contains `Reports submitted for <b>-5</b>`. The total is 0, so the alert says "No reports found". | Only a non-negative count is a match; otherwise the next pattern is tried. Counts are then never negative, and the total is zero exactly when no lookup found reports. | medium, not executed | Lookup.CheckReportsAsWritten, Scenarios.AsWrittenHidesReports | Lookup.CheckReports, Lookup.AggregateOfCheckedLinks |
