/** The two texts the monitor sends to the chat: the startup notice and the
    aggregate alert for a batch of new links (HTML parse mode). */
module Messages {
  import opened Text

  const MetaMaskUrl: string := "https://raw.githubusercontent.com/MetaMask/eth-phishing-detect/refs/heads/main/src/config.json"

  /** Whether the process runs with `NODE_ENV === 'production'`. */
  datatype Mode = Production | Development

  function ModeName(mode: Mode): string {
    match mode
    case Production => "PRODUCTION"
    case Development => "DEVELOPMENT"
  }

  const StartupHeader: string := "\U{1F916} <b>Phishing Monitor Started!</b>\n\n"
  const StartupFooter: string := "\U{23F0} Checking every minute for new threats\n"
    + "\U{1F517} Source: <a href=\"" + MetaMaskUrl + "\">MetaMask Config</a>"
  const AlertHeader: string := "\U{1F6A8} <b>NEW PHISHING LINK DETECTED!</b> \U{1F6A8}\n\n"

  predicate IsStartupNotice(msg: string) {
    IsPrefix(StartupHeader, msg)
  }

  predicate IsAlert(msg: string) {
    IsPrefix(AlertHeader, msg)
  }

  /** No text is both kinds of message: the headers differ in their first character. */
  lemma NoticeIsNotAlert(msg: string)
    ensures !(IsStartupNotice(msg) && IsAlert(msg))
  {
    assert StartupHeader[0] != AlertHeader[0];
  }

  /** The notice sent once, when the first list is fetched. */
  function StartupMessage(mode: Mode, known: nat): (msg: string)
    ensures IsStartupNotice(msg) && !IsAlert(msg)
    ensures IsInfix("Mode: <b>" + ModeName(mode) + "</b>\n", msg)
    ensures IsInfix("Monitoring " + NatToString(known) + " known phishing links\n", msg)
  {
    var modeText := "Mode: <b>" + ModeName(mode) + "</b>\n";
    var countText := "Monitoring " + NatToString(known) + " known phishing links\n";
    var modeLine := "\U{1F30D} " + modeText;
    var countLine := "\U{1F4CA} " + countText;
    var msg := StartupHeader + modeLine + countLine + StartupFooter;
    StartupMessageFacts(modeText, countText, modeLine, countLine, msg);
    msg
  }

  lemma StartupMessageFacts(modeText: string, countText: string, modeLine: string, countLine: string, msg: string)
    requires modeLine == "\U{1F30D} " + modeText && countLine == "\U{1F4CA} " + countText
    requires msg == StartupHeader + modeLine + countLine + StartupFooter
    ensures IsStartupNotice(msg) && !IsAlert(msg)
    ensures IsInfix(modeText, msg) && IsInfix(countText, msg)
  {
    assert msg[..|StartupHeader|] == StartupHeader;
    NoticeIsNotAlert(msg);
    InfixOfSelf(modeText);
    InfixAfter(modeText, "\U{1F30D} ", modeText);
    InfixAfter(modeText, StartupHeader, modeLine);
    InfixBefore(modeText, StartupHeader + modeLine, countLine);
    InfixBefore(modeText, StartupHeader + modeLine + countLine, StartupFooter);
    InfixOfSelf(countText);
    InfixAfter(countText, "\U{1F4CA} ", countText);
    InfixAfter(countText, StartupHeader + modeLine, countLine);
    InfixBefore(countText, StartupHeader + modeLine + countLine, StartupFooter);
  }

  /** How one link appears in an alert. */
  function CodeTag(link: string): string {
    "<code>" + link + "</code>"
  }

  /** `newLinks.forEach(link => message += ...)`: one tagged line per link, in order. */
  function CodeLines(links: seq<string>): (r: string)
    ensures forall l :: l in links ==> IsInfix(CodeTag(l), r)
  {
    if |links| == 0 then ""
    else
      var first := CodeTag(links[0]) + "\n";
      var rest := CodeLines(links[1..]);
      InfixOfSelf(CodeTag(links[0]));
      InfixBefore(CodeTag(links[0]), CodeTag(links[0]), "\n");
      InfixBefore(CodeTag(links[0]), first, rest);
      forall l | l in links[1..]
        ensures IsInfix(CodeTag(l), first + rest)
      {
        InfixAfter(CodeTag(l), first, rest);
      }
      assert forall l :: l in links ==> l == links[0] || l in links[1..];
      first + rest
  }

  /** The head of the link section for exactly one new link. */
  const SingleLinkHead: string := "\U{1F517} New link on MetaMask phishing list:\n"

  /** The head of the link section for a counted list of `n` new links. */
  function ListHead(n: nat): string {
    "\U{1F517} " + CountText(n) + " on MetaMask phishing list:\n"
  }

  /** No text starts with both heads: they differ right after the emoji. */
  lemma LinkFormsDiffer(n: nat, s: string)
    ensures !(IsPrefix(SingleLinkHead, s) && IsPrefix(ListHead(n), s))
  {
    var k := |"\U{1F517} "|;
    assert SingleLinkHead[k] == 'N' && ListHead(n)[k] == 'F';
  }

  /** The link section: the single-link form for exactly one link, the
      counted list otherwise. */
  function LinksSection(newLinks: seq<string>): (r: string)
    ensures forall l :: l in newLinks ==> IsInfix(CodeTag(l), r)
    ensures |newLinks| == 1 ==> IsPrefix(SingleLinkHead + CodeTag(newLinks[0]), r)
    ensures |newLinks| != 1 ==> IsPrefix(ListHead(|newLinks|), r) && IsInfix(CountText(|newLinks|), r)
  {
    if |newLinks| == 1 then
      var head := SingleLinkHead;
      var r := head + CodeTag(newLinks[0]) + "\n\n";
      InfixOfSelf(CodeTag(newLinks[0]));
      InfixAfter(CodeTag(newLinks[0]), head, CodeTag(newLinks[0]));
      InfixBefore(CodeTag(newLinks[0]), head + CodeTag(newLinks[0]), "\n\n");
      assert r[..|head + CodeTag(newLinks[0])|] == head + CodeTag(newLinks[0]);
      r
    else
      var count := CountText(|newLinks|);
      var head := ListHead(|newLinks|);
      var lines := CodeLines(newLinks);
      var r := head + lines + "\n";
      InfixOfSelf(count);
      InfixAfter(count, "\U{1F517} ", count);
      InfixBefore(count, "\U{1F517} " + count, " on MetaMask phishing list:\n");
      InfixBefore(count, head, lines);
      InfixBefore(count, head + lines, "\n");
      forall l | l in newLinks
        ensures IsInfix(CodeTag(l), head + lines + "\n")
      {
        InfixAfter(CodeTag(l), head, lines);
        InfixBefore(CodeTag(l), head + lines, "\n");
      }
      assert r[..|head|] == head;
      r
  }

  function CountText(n: nat): string {
    "Found " + NatToString(n) + " new links"
  }

  function TotalLine(total: nat): string {
    "\U{1F4CA} " + TotalText(total) + "\n"
  }

  function TotalText(total: nat): string {
    "Total MetaMask links now: " + NatToString(total) + "\n"
  }

  const NoReportsLine: string := "\U{1F575}\U{FE0F} ChainAbuse: No reports found\n\n"

  function FoundText(reports: nat): string {
    "Found <b>" + NatToString(reports) + "</b> reports total"
  }

  /** The ChainAbuse line of the alert: the total when it is positive,
      otherwise "No reports found". */
  function ReportsLine(reports: int): (line: string)
    ensures line == NoReportsLine <==> reports <= 0
    ensures reports > 0 ==> IsInfix(FoundText(reports), line)
  {
    if reports > 0 then
      var found := FoundText(reports);
      var line := "\U{1F575}\U{FE0F} ChainAbuse: " + found + "\n\n";
      InfixOfSelf(found);
      InfixAfter(found, "\U{1F575}\U{FE0F} ChainAbuse: ", found);
      InfixBefore(found, "\U{1F575}\U{FE0F} ChainAbuse: " + found, "\n\n");
      assert line[|line| - 3] == 'l' && NoReportsLine[|NoReportsLine| - 3] == 'd';
      line
    else NoReportsLine
  }

  const Footer: string := "\U{1F4CB} Check full MetaMask list: <a href=\"" + MetaMaskUrl + "\">MetaMask Config</a>"

  /** The one alert sent for a batch of new links: the links, the list's new
      length and the report total of the lookups. It ends in the "No reports
      found" line exactly when the total is not positive. */
  function AlertMessage(newLinks: seq<string>, total: nat, reports: int): (msg: string)
    ensures IsAlert(msg) && !IsStartupNotice(msg)
    ensures forall l :: l in newLinks ==> IsInfix(CodeTag(l), msg)
    ensures |newLinks| == 1 ==> IsPrefix(AlertHeader + SingleLinkHead + CodeTag(newLinks[0]), msg)
    ensures |newLinks| != 1 ==> IsPrefix(AlertHeader + ListHead(|newLinks|), msg)
    ensures |newLinks| != 1 ==> IsInfix(CountText(|newLinks|), msg)
    ensures IsInfix("Total MetaMask links now: " + NatToString(total) + "\n", msg)
    ensures reports > 0 ==> IsInfix("Found <b>" + NatToString(reports) + "</b> reports total", msg)
    ensures IsSuffix(NoReportsLine + Footer, msg) <==> reports <= 0
  {
    var links := LinksSection(newLinks);
    var msg := AlertHeader + links + TotalLine(total) + ReportsLine(reports) + Footer;
    AlertStructure(newLinks, links, total, reports, msg);
    ReportsSummary(AlertHeader + links + TotalLine(total), reports, msg);
    msg
  }

  lemma AlertStructure(newLinks: seq<string>, links: string, total: nat, reports: int, msg: string)
    requires links == LinksSection(newLinks)
    requires msg == AlertHeader + links + TotalLine(total) + ReportsLine(reports) + Footer
    ensures IsAlert(msg) && !IsStartupNotice(msg)
    ensures forall l :: l in newLinks ==> IsInfix(CodeTag(l), msg)
    ensures |newLinks| == 1 ==> IsPrefix(AlertHeader + SingleLinkHead + CodeTag(newLinks[0]), msg)
    ensures |newLinks| != 1 ==> IsPrefix(AlertHeader + ListHead(|newLinks|), msg)
    ensures |newLinks| != 1 ==> IsInfix(CountText(|newLinks|), msg)
    ensures IsInfix(TotalText(total), msg)
  {
    var t := TotalLine(total);
    var r := ReportsLine(reports);
    SectionsOfFive(AlertHeader, links, t, r, Footer);
    NoticeIsNotAlert(msg);

    var head := if |newLinks| == 1 then SingleLinkHead + CodeTag(newLinks[0]) else ListHead(|newLinks|);
    PrefixAfterSame(AlertHeader, head, links);
    PrefixBefore(AlertHeader + head, AlertHeader + links, t);
    PrefixBefore(AlertHeader + head, AlertHeader + links + t, r);
    PrefixBefore(AlertHeader + head, AlertHeader + links + t + r, Footer);
    if |newLinks| == 1 {
      ConcatAssoc(AlertHeader, SingleLinkHead, CodeTag(newLinks[0]));
    }

    InfixOfSelf(TotalText(total));
    InfixAfter(TotalText(total), "\U{1F4CA} ", TotalText(total));
    InfixBefore(TotalText(total), "\U{1F4CA} " + TotalText(total), "\n");
  }

  /** A text made of five sections starts with the first and contains
      whatever the second or third contains. */
  lemma SectionsOfFive(a: string, b: string, c: string, d: string, e: string)
    ensures IsPrefix(a, a + b + c + d + e)
    ensures forall p :: IsInfix(p, b) ==> IsInfix(p, a + b + c + d + e)
    ensures forall p :: IsInfix(p, c) ==> IsInfix(p, a + b + c + d + e)
  {
    var s := a + b + c + d + e;
    assert s[..|a|] == a;
    forall p | IsInfix(p, b)
      ensures IsInfix(p, s)
    {
      InfixAfter(p, a, b);
      InfixBefore(p, a + b, c);
      InfixBefore(p, a + b + c, d);
      InfixBefore(p, a + b + c + d, e);
    }
    forall p | IsInfix(p, c)
      ensures IsInfix(p, s)
    {
      InfixAfter(p, a + b, c);
      InfixBefore(p, a + b + c, d);
      InfixBefore(p, a + b + c + d, e);
    }
  }

  lemma ReportsSummary(front: string, reports: int, msg: string)
    requires msg == front + ReportsLine(reports) + Footer
    ensures reports > 0 ==> IsInfix(FoundText(reports), msg)
    ensures IsSuffix(NoReportsLine + Footer, msg) <==> reports <= 0
  {
    var r := ReportsLine(reports);
    SuffixOfConcat(front, r, Footer);
    if reports > 0 {
      var found := FoundText(reports);
      InfixAfter(found, front, r);
      InfixBefore(found, front + r, Footer);
      assert r[|r| - 3] == 'l';
      FoundLineIsNotNoReports(msg, r);
    }
  }

  /** A message that ends in a "Found <b>N</b> reports total" line and the
      footer does not end in the "No reports found" line and the footer:
      the two lines differ three characters before their end. */
  lemma FoundLineIsNotNoReports(msg: string, reportsLine: string)
    requires |reportsLine| >= 3 && reportsLine[|reportsLine| - 3] == 'l'
    requires IsSuffix(reportsLine + Footer, msg)
    ensures !IsSuffix(NoReportsLine + Footer, msg)
  {
    var s := NoReportsLine + Footer;
    var i := |msg| - |Footer| - 3;
    assert msg[i] == (reportsLine + Footer)[|reportsLine| - 3] == 'l';
    assert s[|s| - |Footer| - 3] == NoReportsLine[|NoReportsLine| - 3] == 'd';
  }
}
