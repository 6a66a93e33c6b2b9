/** scrape_thread (main.py lines 46-124) as a whole: input validation, session start,
    detection, one of the two page loops, and the final report. `Scrape` specifies a run;
    `App` is the imperative model that updates the module-level `scraped_data` in place. */
module Scraper {
  import opened Wrappers
  import opened Text
  import opened Urls
  import opened Oracle
  import opened Detect
  import opened Walk

  /** What a run shows the operator. */
  datatype Report =
    | InvalidInput        // "Please fill all fields correctly." (lines 50-52)
    | RunError            // an exception reached the handler at lines 120-121
    | Success(count: nat) // "<count> items scraped." (line 116)
    | NoData              // the "No Data" warning (line 118)

  /** A run's report, the value of `scraped_data` afterwards, and the requests it made of
      the browser, in order. */
  datatype Run = Run(report: Report, data: seq<string>, log: seq<Action>)

  /** The lookups made for `hints`, one per hint, in order. */
  function Lookups(hints: seq<string>): (r: seq<Action>)
    ensures |r| == |hints| && forall j :: 0 <= j < |hints| ==> r[j] == Lookup(hints[j])
  {
    seq(|hints|, j requires 0 <= j < |hints| => Lookup(hints[j]))
  }

  /** The requests made before a page loop starts: the session, the base URL, and one
      lookup per hint the detection scan tried. */
  function Setup(base: string, found: Option<nat>): (log: seq<Action>)
    ensures log != [] && log[0] == StartSession && Quit !in log
  {
    var log := [StartSession] + [Get(base)] + Lookups(Tried(found));
    assert log[0] == StartSession;
    assert forall j :: 0 <= j < |log| ==> log[j] != Quit;
    log
  }

  /** One run of scrape_thread with the URL field `urlField`, the tag `tag` and the browser
      `b`, when `scraped_data` held `previous` beforehand. */
  function Scrape(previous: seq<string>, urlField: string, tag: string, b: Browser): Run
  {
    var base := StripSpace(urlField);
    if base == [] || tag == [] then Run(InvalidInput, previous, [])
    else if !b.starts then Run(RunError, [], [StartSession])
    else if !b.reachable(base) then Run(RunError, [], [StartSession] + [Get(base)])
    else
      var w := Pages(b, base, tag);
      if w.exit == Raised then Run(RunError, w.data, w.log)
      else if !b.quits then Run(RunError, w.data, w.log + [Quit])
      else Run(if w.data != [] then Success(|w.data|) else NoData, w.data, w.log + [Quit])
  }

  /** The page loop a run reaches once the base URL is open: detection picks the mode, and
      the loop starts from the requests made so far and an empty `scraped_data`. */
  function Pages(b: Browser, base: string, tag: string): Walk
  {
    var found := FirstClickable(b.clickable, 0);
    Paginate(b, base, tag, found, Setup(base, found))
  }

  /** What a run reports and leaves behind: rejected input does no browser work and keeps
      the previous data; any other run starts a session; success reports the number of
      entries, all stripped and non-empty; "No Data" means nothing was gathered; either of
      those comes only after a quit that returned normally; and a quit is the last request. */
  lemma ScrapeOutcome(previous: seq<string>, urlField: string, tag: string, b: Browser)
    ensures var r := Scrape(previous, urlField, tag, b);
            && ((r.report == InvalidInput) == (StripSpace(urlField) == [] || tag == []))
            && (r.report == InvalidInput ==> r.data == previous && r.log == [])
            && (r.report != InvalidInput ==> r.log != [] && r.log[0] == StartSession)
            && (r.report.Success? ==> r.data != [] && r.report.count == |r.data|)
            && (r.report == NoData ==> r.data == [])
            && (r.report != InvalidInput ==> AllKept(r.data))
            && ((r.report.Success? || r.report == NoData) ==> Quit in r.log && b.quits)
            && (Quit in r.log ==> r.log[|r.log| - 1] == Quit)
  {
  }

  /** A valid run resets `scraped_data` (line 59): what it leaves does not depend on the
      data held before. */
  lemma ScrapeForgetsPrevious(previous: seq<string>, other: seq<string>, urlField: string,
                              tag: string, b: Browser)
    requires StripSpace(urlField) != [] && tag != []
    ensures Scrape(previous, urlField, tag, b) == Scrape(other, urlField, tag, b)
  {
  }

  /** When a valid run ends in the error handler (lines 120-121): the session does not come
      up, the base URL cannot be opened, the page loop raises, or `driver.quit()` raises.
      The driver is asked to quit only when the page loop ended normally, and the data is
      empty when the run failed before its loop. */
  lemma ScrapeErrors(previous: seq<string>, urlField: string, tag: string, b: Browser)
    ensures var r := Scrape(previous, urlField, tag, b);
            var base := StripSpace(urlField);
            && (r.report == RunError
                <==> base != [] && tag != []
                     && (!b.starts || !b.reachable(base)
                         || Pages(b, base, tag).exit == Raised || !b.quits))
            && (Quit in r.log
                <==> base != [] && tag != [] && b.starts && b.reachable(base)
                     && Pages(b, base, tag).exit == Finished)
            && (base != [] && tag != [] && (!b.starts || !b.reachable(base)) ==> r.data == [])
            && (base != [] && tag != [] && b.starts && b.reachable(base)
                ==> r.data == Pages(b, base, tag).data)
  {
    var base := StripSpace(urlField);
    if base != [] && tag != [] && b.starts && b.reachable(base) {
      var found := FirstClickable(b.clickable, 0);
      var w := Pages(b, base, tag);
      assert Quit !in w.log;
      assert Quit in w.log + [Quit];
    }
  }

  /** A run in URL mode, with `k` the first page (1..7) that is unreachable or yields
      nothing, or 8: `scraped_data` ends as exactly the extractions of pages `1..k-1`, in
      page order; an unreachable page `k` or a failing quit is an error; otherwise the
      report counts those entries, or says "No Data". */
  lemma ScrapeUrlMode(previous: seq<string>, urlField: string, tag: string, b: Browser, k: nat)
    requires StripSpace(urlField) != [] && tag != [] && b.starts && b.reachable(StripSpace(urlField))
    requires FirstClickable(b.clickable, 0) == None
    requires 1 <= k <= MaxPages + 1
    requires forall p :: 1 <= p < k ==> (b.reachable(PageUrl(StripSpace(urlField), p))
                                         && UrlYield(b, StripSpace(urlField), tag, p) != [])
    requires k <= MaxPages ==> (!b.reachable(PageUrl(StripSpace(urlField), k))
                                || UrlYield(b, StripSpace(urlField), tag, k) == [])
    ensures var r := Scrape(previous, urlField, tag, b);
            && r.data == UrlGathered(b, StripSpace(urlField), tag, 1, k)
            && r.report == (if k <= MaxPages && !b.reachable(PageUrl(StripSpace(urlField), k)) then RunError
                            else if !b.quits then RunError
                            else if r.data != [] then Success(|r.data|) else NoData)
  {
    var base := StripSpace(urlField);
    UrlStopRule(b, base, tag, k, [], Setup(base, None));
    assert [] + UrlGathered(b, base, tag, 1, k) == UrlGathered(b, base, tag, 1, k);
  }

  /** A run in button mode with the winning hint `Hints[h]`, and `k` the first iteration
      (0..6) whose wait times out or whose click fails, or 7: `scraped_data` ends as exactly
      the extractions of iterations `0..k-1`, and of `k` too when its wait succeeded; a
      time-out or a failing quit is an error; otherwise the report counts the entries. */
  lemma ScrapeButtonMode(previous: seq<string>, urlField: string, tag: string, b: Browser,
                         h: nat, k: nat)
    requires StripSpace(urlField) != [] && tag != [] && b.starts && b.reachable(StripSpace(urlField))
    requires FirstClickable(b.clickable, 0) == Some(h)
    requires k <= MaxPages
    requires forall m :: 0 <= m < k ==> b.load(StripSpace(urlField), tag, m).Loaded? && b.click(Hints[h], m)
    requires k < MaxPages ==> b.load(StripSpace(urlField), tag, k).TimedOut? || !b.click(Hints[h], k)
    ensures var r := Scrape(previous, urlField, tag, b);
            && r.data == ButtonGathered(b, StripSpace(urlField), tag, 0, ButtonLast(b, StripSpace(urlField), tag, k))
            && r.report == (if k < MaxPages && b.load(StripSpace(urlField), tag, k).TimedOut? then RunError
                            else if !b.quits then RunError
                            else if r.data != [] then Success(|r.data|) else NoData)
  {
    var base := StripSpace(urlField);
    var last := ButtonLast(b, base, tag, k);
    ButtonStopRule(b, base, tag, Hints[h], k, [], Setup(base, Some(h)));
    assert [] + ButtonGathered(b, base, tag, 0, last) == ButtonGathered(b, base, tag, 0, last);
  }

  /** The loop that detection selects (line 84), starting from an empty `scraped_data` and
      the requests `log`: button mode with the winning hint, URL mode from page 1 when no hint
      won. Either keeps the requests made so far, quits nothing, and leaves only stripped,
      non-empty entries. */
  function Paginate(b: Browser, base: string, tag: string, found: Option<nat>, log: seq<Action>): (w: Walk)
    requires found.Some? ==> found.value < |Hints|
    requires Quit !in log
    ensures AllKept(w.data)
    ensures log <= w.log && Quit !in w.log
  {
    if found.Some? then
      var hint := Hints[found.value];
      ButtonWalkKept(b, base, tag, hint, 0, [], log);
      ButtonWalkLog(b, base, tag, hint, 0, [], log);
      ButtonWalk(b, base, tag, hint, 0, [], log)
    else
      UrlWalkKept(b, base, tag, 1, [], log);
      UrlWalkLog(b, base, tag, 1, [], log);
      UrlWalk(b, base, tag, 1, [], log)
  }

  /** The base URL of the example site. */
  const ExampleBase: string := "http://example.test/list"

  /** The example site: no clickable control; pages 1-3 each carry two `h2` headings and
      every other page (page 4 first) carries none. */
  function ExampleSite(): Browser
  {
    Browser(
      true,
      url => true,
      hint => false,
      (url, tag, clicks) =>
        if url == PageUrl(ExampleBase, 1) then Loaded(["A1", "A2"])
        else if url == PageUrl(ExampleBase, 2) then Loaded(["B1", "B2"])
        else if url == PageUrl(ExampleBase, 3) then Loaded(["C1", "C2"])
        else Loaded([]),
      (hint, k) => false,
      true)
  }

  /** Page `i` of the example site is `"http://example.test/list/page/" + str(i) + "/"`. */
  lemma ExampleSiteUrl(i: nat)
    ensures PageUrl(ExampleBase, i) == "http://example.test/list" + "/page/" + Decimal(i) + "/"
  {
    PlainPageUrl(ExampleBase, i);
  }

  /** A page whose two texts are already stripped and non-empty yields them unchanged. */
  lemma KeptPairYield(b: Browser, base: string, tag: string, i: nat, x: string, y: string)
    requires b.load(PageUrl(base, i), tag, 0) == Loaded([x, y]) && Kept(x) && Kept(y)
    ensures UrlYield(b, base, tag, i) == [x, y]
  {
    StripFixed(x, IsSpace);
    StripFixed(y, IsSpace);
    assert [y][1..] == [];
    assert Extract([y]) == [y] + Extract([]);
    assert [x, y][1..] == [y];
    assert Extract([x, y]) == [x] + Extract([y]);
  }

  /** A page without any text yields nothing. */
  lemma EmptyPageYield(b: Browser, base: string, tag: string, i: nat)
    requires b.load(PageUrl(base, i), tag, 0) == Loaded([])
    ensures UrlYield(b, base, tag, i) == []
  {
  }

  /** Three consecutive pages of two texts each gather the six texts in page order. */
  lemma GatheredThreePairs(b: Browser, base: string, tag: string, lo: nat,
                           a1: string, a2: string, b1: string, b2: string, c1: string, c2: string)
    requires UrlYield(b, base, tag, lo) == [a1, a2] && UrlYield(b, base, tag, lo + 1) == [b1, b2]
    requires UrlYield(b, base, tag, lo + 2) == [c1, c2]
    ensures UrlGathered(b, base, tag, lo, lo + 3) == [a1, a2, b1, b2, c1, c2]
  {
    var rest := UrlGathered(b, base, tag, lo + 2, lo + 3);
    assert rest == [c1, c2] + UrlGathered(b, base, tag, lo + 3, lo + 3);
    assert rest == [c1, c2];
    assert UrlGathered(b, base, tag, lo + 1, lo + 3) == [b1, b2] + rest;
    assert UrlGathered(b, base, tag, lo, lo + 3) == [a1, a2] + ([b1, b2] + rest);
  }

  /** The `h2` texts on page `i` of the example site. */
  function ExamplePage(i: nat): seq<string>
  {
    if i == 1 then ["A1", "A2"] else if i == 2 then ["B1", "B2"] else if i == 3 then ["C1", "C2"] else []
  }

  /** Loading page `i` (from 1) of the example site finds its texts. */
  lemma ExampleSiteLoad(i: nat)
    requires 1 <= i
    ensures ExampleSite().load(PageUrl(ExampleBase, i), "h2", 0) == Loaded(ExamplePage(i))
  {
    if i != 1 && PageUrl(ExampleBase, i) == PageUrl(ExampleBase, 1) { PageUrlInjective(ExampleBase, i, 1); }
    if i != 2 && PageUrl(ExampleBase, i) == PageUrl(ExampleBase, 2) { PageUrlInjective(ExampleBase, i, 2); }
    if i != 3 && PageUrl(ExampleBase, i) == PageUrl(ExampleBase, 3) { PageUrlInjective(ExampleBase, i, 3); }
  }

  /** The example texts are already stripped and non-empty. */
  lemma ExampleTextsKept()
    ensures Kept("A1") && Kept("A2") && Kept("B1") && Kept("B2") && Kept("C1") && Kept("C2")
  {
  }

  /** What each page of the example site yields in URL mode for `h2`: its texts, as they are. */
  lemma ExampleSiteYield(i: nat)
    requires 1 <= i
    ensures UrlYield(ExampleSite(), ExampleBase, "h2", i) == ExamplePage(i)
  {
    ExampleSiteLoad(i);
    ExampleTextsKept();
    var b := ExampleSite();
    if i == 1 {
      KeptPairYield(b, ExampleBase, "h2", i, "A1", "A2");
    } else if i == 2 {
      KeptPairYield(b, ExampleBase, "h2", i, "B1", "B2");
    } else if i == 3 {
      KeptPairYield(b, ExampleBase, "h2", i, "C1", "C2");
    } else {
      EmptyPageYield(b, ExampleBase, "h2", i);
    }
  }

  /** The end-to-end example: on the example site with tag `h2`, detection finds no control,
      URL mode gathers pages 1-3 and stops at the empty page 4, and the run reports six
      items, whatever `scraped_data` held before. */
  lemma ScrapeExample(previous: seq<string>)
    ensures var r := Scrape(previous, "http://example.test/list", "h2", ExampleSite());
            r.data == ["A1", "A2", "B1", "B2", "C1", "C2"] && r.report == Success(6)
  {
    StripFixed(ExampleBase, IsSpace);
    ExampleUrlMode();
    ScrapeUrlMode(previous, ExampleBase, "h2", ExampleSite(), 4);
    ExampleGathered();
  }

  /** The example site takes URL mode, and its first empty page is page 4. */
  lemma ExampleUrlMode()
    ensures FirstClickable(ExampleSite().clickable, 0) == None
    ensures forall p :: 1 <= p < 4 ==> UrlYield(ExampleSite(), ExampleBase, "h2", p) != []
    ensures UrlYield(ExampleSite(), ExampleBase, "h2", 4) == []
  {
    forall p | 1 <= p < 4
      ensures UrlYield(ExampleSite(), ExampleBase, "h2", p) != []
    {
      ExampleSiteYield(p);
    }
    ExampleSiteYield(4);
  }

  /** Pages 1-3 of the example site gather its six headings in order. */
  lemma ExampleGathered()
    ensures UrlGathered(ExampleSite(), ExampleBase, "h2", 1, 4) == ["A1", "A2", "B1", "B2", "C1", "C2"]
  {
    ExampleSiteYield(1);
    ExampleSiteYield(2);
    ExampleSiteYield(3);
    GatheredThreePairs(ExampleSite(), ExampleBase, "h2", 1, "A1", "A2", "B1", "B2", "C1", "C2");
  }

  /** The application state scrape_thread works on. */
  class App {
    /** `scraped_data` (line 15): module-level, reset by each valid run (line 59) and
        extended in place by the loops (lines 87 and 107); the save buttons read it. */
    var scrapedData: seq<string>
    /** The requests the latest run made of the browser, in order. */
    var log: seq<Action>

    constructor ()
      ensures scrapedData == [] && log == []
    {
      scrapedData := [];
      log := [];
    }

    /** scrape_thread: validate, reset `scraped_data`, start the session, open the base
        URL, detect the pagination strategy, run its loop, quit and report. */
    method ScrapeThread(urlField: string, tag: string, b: Browser) returns (report: Report)
      modifies this
      ensures Scrape(old(scrapedData), urlField, tag, b) == Run(report, scrapedData, log)
    {
      var base := StripSpace(urlField);
      if base == [] || tag == [] {
        log := [];
        return InvalidInput;
      }
      scrapedData := [];
      log := [StartSession];
      if !b.starts {
        return RunError;
      }
      log := log + [Get(base)];
      if !b.reachable(base) {
        return RunError;
      }
      var found, tried := FindButton(b.clickable);
      log := log + Lookups(tried);
      assert log == Setup(base, found);
      ghost var w := Paginate(b, base, tag, found, log);
      var raised: bool;
      if found.Some? {
        raised := ButtonLoop(b, base, tag, Hints[found.value]);
      } else {
        raised := UrlLoop(b, base, tag);
      }
      assert w == Walk(if raised then Raised else Finished, scrapedData, log);
      if raised {
        return RunError;
      }
      log := log + [Quit];
      if !b.quits {
        return RunError;
      }
      if scrapedData != [] {
        report := Success(|scrapedData|);
      } else {
        report := NoData;
      }
    }

    /** Button-driven pagination (lines 84-92), from the current `scraped_data` and log. */
    method ButtonLoop(b: Browser, base: string, tag: string, hint: string) returns (raised: bool)
      modifies this
      ensures ButtonWalk(b, base, tag, hint, 0, old(scrapedData), old(log))
              == Walk(if raised then Raised else Finished, scrapedData, log)
    {
      ghost var whole := ButtonWalk(b, base, tag, hint, 0, scrapedData, log);
      for k := 0 to MaxPages
        invariant ButtonWalk(b, base, tag, hint, k, scrapedData, log) == whole
      {
        var more;
        more, raised := ButtonPage(b, base, tag, hint, k);
        if !more {
          return;
        }
      }
      return false;
    }

    /** One pass of the button loop body (lines 85-92), iteration `k`: wait for the tag (a
        timeout raises), extend `scraped_data` with the extraction, click (a failure ends the
        loop). `more` says whether the loop goes on, `raised` whether the wait raised. */
    method ButtonPage(b: Browser, base: string, tag: string, hint: string, k: nat)
      returns (more: bool, raised: bool)
      requires k < MaxPages
      modifies this
      ensures var w := ButtonWalk(b, base, tag, hint, k, old(scrapedData), old(log));
              if more then !raised && w == ButtonWalk(b, base, tag, hint, k + 1, scrapedData, log)
              else w == Walk(if raised then Raised else Finished, scrapedData, log)
    {
      log := log + [AwaitTag(tag)];
      var page := b.load(base, tag, k);
      if page.TimedOut? {
        return false, true;
      }
      scrapedData := scrapedData + Extract(page.texts);
      log := log + [Click];
      more, raised := b.click(hint, k), false;
    }

    /** URL-pattern pagination (lines 94-109), from the current `scraped_data` and log. */
    method UrlLoop(b: Browser, base: string, tag: string) returns (raised: bool)
      modifies this
      ensures UrlWalk(b, base, tag, 1, old(scrapedData), old(log))
              == Walk(if raised then Raised else Finished, scrapedData, log)
    {
      ghost var whole := UrlWalk(b, base, tag, 1, scrapedData, log);
      for i := 1 to MaxPages + 1
        invariant UrlWalk(b, base, tag, i, scrapedData, log) == whole
      {
        var pagedUrl := PageUrl(base, i);
        log := log + [Get(pagedUrl)];
        if !b.reachable(pagedUrl) {
          return true;
        }
        log := log + [AwaitTag(tag)];
        var page := b.load(pagedUrl, tag, 0);
        if page.TimedOut? {
          return false;
        }
        var newResults := Extract(page.texts);
        if newResults == [] {
          return false;
        }
        scrapedData := scrapedData + newResults;
      }
      return false;
    }
  }
}
