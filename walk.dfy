/** The two page loops of scrape_thread as specification functions: button-driven
    pagination (main.py lines 84-92) and URL-pattern pagination (lines 94-109), each capped
    at MAX_PAGES iterations and each with its own stop rule. Both are written from the state
    a loop starts in (the current `scraped_data` and the requests made so far) to the state
    it leaves, one iteration per call, in the order the loop body performs its steps. */
module Walk {
  import opened Seqs
  import opened Text
  import opened Urls
  import opened Oracle

  /** `MAX_PAGES` (main.py line 14). */
  const MaxPages: nat := 7

  /** How a loop ended: normally (the cap, a `break`), or by an exception that escaped the
      loop to the run-level handler at lines 120-121. */
  datatype Exit = Finished | Raised

  /** A loop's end, with `scraped_data` and the request log as it left them. */
  datatype Walk = Walk(exit: Exit, data: seq<string>, log: seq<Action>)

  /** Button mode from iteration `k` (0-based), with `scraped_data` at `data` and the
      requests so far `log`: wait for the tag (a timeout escapes), extend the data with the
      extraction (even when it is empty), click (a failure breaks). */
  function ButtonWalk(b: Browser, base: string, tag: string, hint: string, k: nat,
                      data: seq<string>, log: seq<Action>): Walk
    decreases MaxPages - k
  {
    if k >= MaxPages then Walk(Finished, data, log)
    else match b.load(base, tag, k)
      case TimedOut => Walk(Raised, data, log + [AwaitTag(tag)])
      case Loaded(texts) =>
        if b.click(hint, k) then
          ButtonWalk(b, base, tag, hint, k + 1, data + Extract(texts), log + [AwaitTag(tag)] + [Click])
        else
          Walk(Finished, data + Extract(texts), log + [AwaitTag(tag)] + [Click])
  }

  /** URL mode from page `i`: build the page URL, navigate (a failure escapes), wait for the
      tag and extract; a timed-out wait or an empty extraction breaks without extending. */
  function UrlWalk(b: Browser, base: string, tag: string, i: nat,
                   data: seq<string>, log: seq<Action>): Walk
    decreases MaxPages + 1 - i
  {
    if i > MaxPages then Walk(Finished, data, log)
    else
      var pagedUrl := PageUrl(base, i);
      if !b.reachable(pagedUrl) then Walk(Raised, data, log + [Get(pagedUrl)])
      else match b.load(pagedUrl, tag, 0)
        case TimedOut => Walk(Finished, data, log + [Get(pagedUrl)] + [AwaitTag(tag)])
        case Loaded(texts) =>
          var newResults := Extract(texts);
          if newResults == [] then Walk(Finished, data, log + [Get(pagedUrl)] + [AwaitTag(tag)])
          else UrlWalk(b, base, tag, i + 1, data + newResults, log + [Get(pagedUrl)] + [AwaitTag(tag)])
  }

  /** What iteration `k` of button mode would append, were its wait to succeed. */
  function ButtonYield(b: Browser, base: string, tag: string, k: nat): seq<string>
  {
    match b.load(base, tag, k)
    case TimedOut => []
    case Loaded(texts) => Extract(texts)
  }

  /** What page `i` of URL mode yields: nothing when its wait times out. */
  function UrlYield(b: Browser, base: string, tag: string, i: nat): seq<string>
  {
    match b.load(PageUrl(base, i), tag, 0)
    case TimedOut => []
    case Loaded(texts) => Extract(texts)
  }

  /** The concatenation of the yields of iterations `lo..hi-1` of button mode. */
  function ButtonGathered(b: Browser, base: string, tag: string, lo: nat, hi: nat): seq<string>
    decreases hi - lo
  {
    if lo >= hi then [] else ButtonYield(b, base, tag, lo) + ButtonGathered(b, base, tag, lo + 1, hi)
  }

  /** The concatenation of the yields of pages `lo..hi-1` of URL mode. */
  function UrlGathered(b: Browser, base: string, tag: string, lo: nat, hi: nat): seq<string>
    decreases hi - lo
  {
    if lo >= hi then [] else UrlYield(b, base, tag, lo) + UrlGathered(b, base, tag, lo + 1, hi)
  }

  /** The URLs of pages `lo..hi-1`, in increasing page order. */
  function PageUrls(base: string, lo: nat, hi: nat): seq<string>
    decreases hi - lo
  {
    if lo >= hi then [] else [PageUrl(base, lo)] + PageUrls(base, lo + 1, hi)
  }

  /** The m-th URL of `PageUrls(base, lo, hi)` is that of page `lo + m`; so the pages are
      requested in increasing order and, by `PageUrlInjective`, no URL twice. */
  lemma {:induction false} PageUrlsAt(base: string, lo: nat, hi: nat, m: nat)
    requires lo <= hi && m < hi - lo
    ensures |PageUrls(base, lo, hi)| == hi - lo
    ensures PageUrls(base, lo, hi)[m] == PageUrl(base, lo + m)
    decreases hi - lo
  {
    var rest := PageUrls(base, lo + 1, hi);
    assert PageUrls(base, lo, hi) == [PageUrl(base, lo)] + rest;
    if lo + 1 == hi {
      assert rest == [];
    } else if m == 0 {
      PageUrlsAt(base, lo + 1, hi, 0);
    } else {
      PageUrlsAt(base, lo + 1, hi, m - 1);
    }
  }

  /** Clicks on a wait followed by a click: one. */
  lemma ClicksStep(log: seq<Action>, tag: string)
    ensures Clicks(log + [AwaitTag(tag)] + [Click]) == Clicks(log) + 1
  {
    ClicksAppend(log, [AwaitTag(tag)]);
    ClicksAppend(log + [AwaitTag(tag)], [Click]);
    assert Clicks([AwaitTag(tag)]) == 0 by {
      assert [AwaitTag(tag)][1..] == [];
    }
    assert Clicks([Click]) == 1 by {
      assert [Click][1..] == [];
    }
  }

  /** Navigations of a `driver.get` followed by anything but one: that URL. */
  lemma NavigationsStep(log: seq<Action>, url: string, tail: seq<Action>)
    requires forall j :: 0 <= j < |tail| ==> !tail[j].Get?
    ensures Navigations(log + [Get(url)] + tail) == Navigations(log) + [url]
    decreases |tail|
  {
    NavigationsAppend(log, [Get(url)]);
    NavigationsAppend(log + [Get(url)], tail);
    assert Navigations([Get(url)]) == [url] by {
      assert [Get(url)][1..] == [];
    }
    NoNavigations(tail);
  }

  lemma {:induction false} NoNavigations(tail: seq<Action>)
    requires forall j :: 0 <= j < |tail| ==> !tail[j].Get?
    ensures Navigations(tail) == []
  {
    if tail != [] {
      NoNavigations(tail[1..]);
    }
  }

  /** Iteration `m` of button mode loads and clicks successfully, so the loop goes on past it. */
  predicate Advances(b: Browser, base: string, tag: string, hint: string, m: nat)
  {
    b.load(base, tag, m).Loaded? && b.click(hint, m)
  }

  /** From iteration `j`, button mode goes on past iterations `j..k-1` and stops at
      iteration `k`, or runs into the cap when `k` is 7. */
  predicate ButtonStopsAt(b: Browser, base: string, tag: string, hint: string, j: nat, k: nat)
  {
    && j <= k <= MaxPages
    && (forall m :: j <= m < k ==> Advances(b, base, tag, hint, m))
    && (k < MaxPages ==> !Advances(b, base, tag, hint, k))
  }

  /** The iterations whose extraction button mode keeps when it stops at `k`: up to and
      including `k` when its wait succeeded (its click then failed), up to `k - 1` otherwise. */
  function ButtonLast(b: Browser, base: string, tag: string, k: nat): nat
  {
    if k < MaxPages && b.load(base, tag, k).Loaded? then k + 1 else k
  }

  /** Before its stopping iteration, button mode goes on past iteration `j` and stops at the
      same iteration from `j + 1`. */
  lemma ButtonStopsAtNext(b: Browser, base: string, tag: string, hint: string, j: nat, k: nat)
    requires ButtonStopsAt(b, base, tag, hint, j, k) && j < k
    ensures j < MaxPages && Advances(b, base, tag, hint, j)
    ensures ButtonStopsAt(b, base, tag, hint, j + 1, k)
    ensures j < ButtonLast(b, base, tag, k)
  {
  }

  /** The iteration where button mode stops: a timed-out wait raises with nothing added and
      no click; a failed click ends the loop with the page's extraction appended. */
  lemma ButtonStopHere(b: Browser, base: string, tag: string, hint: string, k: nat,
                       data: seq<string>, log: seq<Action>)
    requires k <= MaxPages && (k < MaxPages ==> !Advances(b, base, tag, hint, k))
    ensures var w := ButtonWalk(b, base, tag, hint, k, data, log);
            && (w.exit == Raised <==> k < MaxPages && b.load(base, tag, k).TimedOut?)
            && w.data == data + ButtonGathered(b, base, tag, k, ButtonLast(b, base, tag, k))
            && Clicks(w.log) == Clicks(log) + (ButtonLast(b, base, tag, k) - k)
  {
    if k < MaxPages {
      match b.load(base, tag, k)
      case TimedOut =>
        ClicksAppend(log, [AwaitTag(tag)]);
        assert Clicks([AwaitTag(tag)]) == 0 by {
          assert [AwaitTag(tag)][1..] == [];
        }
        assert data + [] == data;
      case Loaded(texts) =>
        ClicksStep(log, tag);
        assert ButtonGathered(b, base, tag, k, k + 1) == Extract(texts) + [];
    } else {
      assert data + [] == data;
    }
  }

  /** An iteration that loads and clicks successfully appends its extraction and moves on. */
  lemma ButtonStep(b: Browser, base: string, tag: string, hint: string, k: nat,
                   data: seq<string>, log: seq<Action>)
    requires k < MaxPages && Advances(b, base, tag, hint, k)
    ensures ButtonWalk(b, base, tag, hint, k, data, log)
            == ButtonWalk(b, base, tag, hint, k + 1, data + ButtonYield(b, base, tag, k),
                          log + [AwaitTag(tag)] + [Click])
  {
  }

  /** Button mode from iteration `j`, when iterations `j..k-1` load and click successfully
      and iteration `k` (if below the cap) is the first whose wait times out or whose click
      fails: it raises exactly when that wait timed out. */
  lemma {:induction false} ButtonStopExit(b: Browser, base: string, tag: string, hint: string,
                                          j: nat, k: nat, data: seq<string>, log: seq<Action>)
    requires ButtonStopsAt(b, base, tag, hint, j, k)
    ensures ButtonWalk(b, base, tag, hint, j, data, log).exit == Raised
            <==> k < MaxPages && b.load(base, tag, k).TimedOut?
    decreases k - j
  {
    if j < k {
      ButtonStopsAtNext(b, base, tag, hint, j, k);
      ButtonStep(b, base, tag, hint, j, data, log);
      ButtonStopExit(b, base, tag, hint, j + 1, k, data + ButtonYield(b, base, tag, j),
                     log + [AwaitTag(tag)] + [Click]);
    } else {
      ButtonStopHere(b, base, tag, hint, k, data, log);
    }
  }

  /** Under the same conditions, the data gathered is the extractions of iterations `j`
      up to `ButtonLast(k)`, in order. */
  lemma {:induction false} ButtonStopData(b: Browser, base: string, tag: string, hint: string,
                                          j: nat, k: nat, data: seq<string>, log: seq<Action>)
    requires ButtonStopsAt(b, base, tag, hint, j, k)
    ensures ButtonWalk(b, base, tag, hint, j, data, log).data
            == data + ButtonGathered(b, base, tag, j, ButtonLast(b, base, tag, k))
    decreases k - j
  {
    if j < k {
      ButtonStopsAtNext(b, base, tag, hint, j, k);
      ButtonStopData(b, base, tag, hint, j + 1, k, data + ButtonYield(b, base, tag, j),
                     log + [AwaitTag(tag)] + [Click]);
      ButtonDataStep(b, base, tag, hint, j, ButtonLast(b, base, tag, k), data, log);
    } else {
      ButtonStopDataHere(b, base, tag, hint, k, data, log);
    }
  }

  /** The data part of `ButtonStopHere`, for a walk that stops where it starts. */
  lemma ButtonStopDataHere(b: Browser, base: string, tag: string, hint: string, k: nat,
                           data: seq<string>, log: seq<Action>)
    requires ButtonStopsAt(b, base, tag, hint, k, k)
    ensures ButtonWalk(b, base, tag, hint, k, data, log).data
            == data + ButtonGathered(b, base, tag, k, ButtonLast(b, base, tag, k))
  {
    ButtonStopHere(b, base, tag, hint, k, data, log);
  }

  /** An iteration that loads and clicks successfully puts its extraction before those of
      the iterations after it. */
  lemma ButtonDataStep(b: Browser, base: string, tag: string, hint: string, j: nat, last: nat,
                       data: seq<string>, log: seq<Action>)
    requires j < last && j < MaxPages && Advances(b, base, tag, hint, j)
    requires var found := ButtonYield(b, base, tag, j);
             ButtonWalk(b, base, tag, hint, j + 1, data + found, log + [AwaitTag(tag)] + [Click]).data
             == data + found + ButtonGathered(b, base, tag, j + 1, last)
    ensures ButtonWalk(b, base, tag, hint, j, data, log).data == data + ButtonGathered(b, base, tag, j, last)
  {
    var found := ButtonYield(b, base, tag, j);
    var rest := ButtonGathered(b, base, tag, j + 1, last);
    ButtonStep(b, base, tag, hint, j, data, log);
    assert ButtonGathered(b, base, tag, j, last) == found + rest;
    Regroup(data, found, rest);
  }

  /** Under the same conditions, one click is attempted per iteration whose wait succeeded. */
  lemma {:induction false} ButtonStopClicks(b: Browser, base: string, tag: string, hint: string,
                                            j: nat, k: nat, data: seq<string>, log: seq<Action>)
    requires ButtonStopsAt(b, base, tag, hint, j, k)
    ensures Clicks(ButtonWalk(b, base, tag, hint, j, data, log).log)
            == Clicks(log) + (ButtonLast(b, base, tag, k) - j)
    decreases k - j
  {
    if j < k {
      var log' := log + [AwaitTag(tag)] + [Click];
      ButtonStopsAtNext(b, base, tag, hint, j, k);
      ButtonStopClicks(b, base, tag, hint, j + 1, k, data + ButtonYield(b, base, tag, j), log');
      ButtonClicksStep(b, base, tag, hint, j, data, log);
    } else {
      ButtonStopHere(b, base, tag, hint, k, data, log);
    }
  }

  /** An iteration that loads and clicks successfully adds one click to those of the
      iterations after it. */
  lemma ButtonClicksStep(b: Browser, base: string, tag: string, hint: string, j: nat,
                         data: seq<string>, log: seq<Action>)
    requires j < MaxPages && Advances(b, base, tag, hint, j)
    ensures var log' := log + [AwaitTag(tag)] + [Click];
            Clicks(ButtonWalk(b, base, tag, hint, j, data, log).log) - Clicks(log)
            == Clicks(ButtonWalk(b, base, tag, hint, j + 1, data + ButtonYield(b, base, tag, j), log').log)
               - Clicks(log') + 1
  {
    ButtonStep(b, base, tag, hint, j, data, log);
    ClicksStep(log, tag);
  }

  /** Button mode as a whole. With `k` the first iteration whose wait times out or whose
      click fails (or the cap, 7): a timed-out wait escapes with pages `0..k-1` kept; a
      failed click ends the loop normally with page `k`'s extraction already appended, even
      when it is empty; empty extractions never stop the loop; the loop only appends to
      `scraped_data`; and exactly that many clicks are made, never more than 7. */
  lemma ButtonStopRule(b: Browser, base: string, tag: string, hint: string, k: nat,
                       data: seq<string>, log: seq<Action>)
    requires k <= MaxPages
    requires forall m :: 0 <= m < k ==> b.load(base, tag, m).Loaded? && b.click(hint, m)
    requires k < MaxPages ==> b.load(base, tag, k).TimedOut? || !b.click(hint, k)
    ensures var w := ButtonWalk(b, base, tag, hint, 0, data, log);
            var last := if k < MaxPages && b.load(base, tag, k).Loaded? then k + 1 else k;
            && (w.exit == Raised <==> k < MaxPages && b.load(base, tag, k).TimedOut?)
            && w.data == data + ButtonGathered(b, base, tag, 0, last)
            && Clicks(w.log) == Clicks(log) + last && last <= MaxPages
  {
    ButtonStopExit(b, base, tag, hint, 0, k, data, log);
    ButtonStopData(b, base, tag, hint, 0, k, data, log);
    ButtonStopClicks(b, base, tag, hint, 0, k, data, log);
  }

  /** Page `p` of URL mode is reachable and yields something, so the loop goes on past it. */
  predicate Continues(b: Browser, base: string, tag: string, p: nat)
  {
    b.reachable(PageUrl(base, p)) && UrlYield(b, base, tag, p) != []
  }

  /** From page `i`, URL mode goes on past pages `i..k-1` and stops at page `k`, or runs
      into the cap when `k` is past it. */
  predicate UrlStopsAt(b: Browser, base: string, tag: string, i: nat, k: nat)
  {
    && i <= k <= MaxPages + 1
    && (forall p :: i <= p < k ==> Continues(b, base, tag, p))
    && (k <= MaxPages ==> !Continues(b, base, tag, k))
  }

  /** Before its stopping page, URL mode goes on past page `i` and stops at the same page
      from `i + 1`. */
  lemma UrlStopsAtNext(b: Browser, base: string, tag: string, i: nat, k: nat)
    requires UrlStopsAt(b, base, tag, i, k) && i < k
    ensures i <= MaxPages && Continues(b, base, tag, i)
    ensures UrlStopsAt(b, base, tag, i + 1, k)
  {
  }

  /** The page where URL mode stops, when it is within the cap: an unreachable page raises,
      a page that times out or yields nothing ends the loop; either way nothing is added and
      that page's URL is the last one requested. */
  lemma UrlStopHere(b: Browser, base: string, tag: string, k: nat, data: seq<string>, log: seq<Action>)
    requires k <= MaxPages
    requires !b.reachable(PageUrl(base, k)) || UrlYield(b, base, tag, k) == []
    ensures var w := UrlWalk(b, base, tag, k, data, log);
            && (w.exit == Raised <==> !b.reachable(PageUrl(base, k)))
            && w.data == data
            && Navigations(w.log) == Navigations(log) + [PageUrl(base, k)]
  {
    var url := PageUrl(base, k);
    if b.reachable(url) {
      NavigationsStep(log, url, [AwaitTag(tag)]);
    } else {
      NavigationsStep(log, url, []);
      assert log + [Get(url)] + [] == log + [Get(url)];
    }
  }

  /** One page of URL mode that is reachable and yields something: its entries are added and
      the loop goes on with the next page. */
  lemma UrlStep(b: Browser, base: string, tag: string, i: nat, data: seq<string>, log: seq<Action>)
    requires i <= MaxPages && Continues(b, base, tag, i)
    ensures UrlWalk(b, base, tag, i, data, log)
            == UrlWalk(b, base, tag, i + 1, data + UrlYield(b, base, tag, i),
                       log + [Get(PageUrl(base, i))] + [AwaitTag(tag)])
  {
  }

  /** URL mode from page `i`, when pages `i..k-1` are reachable and yield something and
      page `k` (if within the cap) is the first that is unreachable or yields nothing: only
      an unreachable page `k` escapes. */
  lemma {:induction false} UrlStopExit(b: Browser, base: string, tag: string, i: nat, k: nat,
                                       data: seq<string>, log: seq<Action>)
    requires UrlStopsAt(b, base, tag, i, k)
    ensures UrlWalk(b, base, tag, i, data, log).exit == Raised <==> k <= MaxPages && !b.reachable(PageUrl(base, k))
    decreases k - i
  {
    if i == k {
      if k <= MaxPages {
        UrlStopHere(b, base, tag, k, data, log);
      }
    } else {
      UrlStopsAtNext(b, base, tag, i, k);
      UrlStep(b, base, tag, i, data, log);
      UrlStopExit(b, base, tag, i + 1, k, data + UrlYield(b, base, tag, i),
                  log + [Get(PageUrl(base, i))] + [AwaitTag(tag)]);
    }
  }

  /** Under the same conditions, the data gathered is that of pages `i..k-1`, in order. */
  lemma {:induction false} UrlStopData(b: Browser, base: string, tag: string, i: nat, k: nat,
                                       data: seq<string>, log: seq<Action>)
    requires UrlStopsAt(b, base, tag, i, k)
    ensures UrlWalk(b, base, tag, i, data, log).data == data + UrlGathered(b, base, tag, i, k)
    decreases k - i
  {
    if i == k {
      assert data + [] == data;
      if k <= MaxPages {
        UrlStopHere(b, base, tag, k, data, log);
      }
    } else {
      var found := UrlYield(b, base, tag, i);
      UrlStopsAtNext(b, base, tag, i, k);
      UrlStep(b, base, tag, i, data, log);
      UrlStopData(b, base, tag, i + 1, k, data + found, log + [Get(PageUrl(base, i))] + [AwaitTag(tag)]);
      var rest := UrlGathered(b, base, tag, i + 1, k);
      assert UrlGathered(b, base, tag, i, k) == found + rest;
      Regroup(data, found, rest);
    }
  }

  /** Under the same conditions, the URLs requested are those of pages `i..k` (up to the cap). */
  lemma {:induction false} UrlStopNavigations(b: Browser, base: string, tag: string, i: nat, k: nat,
                                              data: seq<string>, log: seq<Action>)
    requires UrlStopsAt(b, base, tag, i, k)
    ensures Navigations(UrlWalk(b, base, tag, i, data, log).log)
            == Navigations(log) + PageUrls(base, i, if k <= MaxPages then k + 1 else k)
    decreases k - i
  {
    var hi := if k <= MaxPages then k + 1 else k;
    if i < k {
      var log' := log + [Get(PageUrl(base, i))] + [AwaitTag(tag)];
      UrlStopsAtNext(b, base, tag, i, k);
      UrlStopNavigations(b, base, tag, i + 1, k, data + UrlYield(b, base, tag, i), log');
      UrlNavigationsStep(b, base, tag, i, hi, data, log);
    } else {
      UrlStopNavigationsHere(b, base, tag, k, data, log);
    }
  }

  /** The navigation part of `UrlStopHere`, for a walk that stops where it starts. */
  lemma UrlStopNavigationsHere(b: Browser, base: string, tag: string, k: nat,
                               data: seq<string>, log: seq<Action>)
    requires UrlStopsAt(b, base, tag, k, k)
    ensures Navigations(UrlWalk(b, base, tag, k, data, log).log)
            == Navigations(log) + PageUrls(base, k, if k <= MaxPages then k + 1 else k)
  {
    if k <= MaxPages {
      UrlStopHere(b, base, tag, k, data, log);
      assert PageUrls(base, k, k + 1) == [PageUrl(base, k)] + [];
    } else {
      assert Navigations(log) + [] == Navigations(log);
    }
  }

  /** A page that is reachable and yields something puts its URL before those of the pages
      after it. */
  lemma UrlNavigationsStep(b: Browser, base: string, tag: string, i: nat, hi: nat,
                           data: seq<string>, log: seq<Action>)
    requires i < hi && i <= MaxPages && Continues(b, base, tag, i)
    requires var log' := log + [Get(PageUrl(base, i))] + [AwaitTag(tag)];
             Navigations(UrlWalk(b, base, tag, i + 1, data + UrlYield(b, base, tag, i), log').log)
             == Navigations(log') + PageUrls(base, i + 1, hi)
    ensures Navigations(UrlWalk(b, base, tag, i, data, log).log) == Navigations(log) + PageUrls(base, i, hi)
  {
    var url := PageUrl(base, i);
    UrlStep(b, base, tag, i, data, log);
    NavigationsStep(log, url, [AwaitTag(tag)]);
    var urls := PageUrls(base, i + 1, hi);
    assert PageUrls(base, i, hi) == [url] + urls;
    Regroup(Navigations(log), [url], urls);
  }

  /** URL mode as a whole. With `k` the first page (1..7) that is unreachable or whose
      wait times out or whose extraction is empty, or 8 when there is none: the result is
      exactly the extractions of pages `1..k-1`, in page order, appended to what was there,
      with nothing of page `k`; only an unreachable page escapes; and the pages requested
      are `1..min(k, 7)`, in increasing order. */
  lemma UrlStopRule(b: Browser, base: string, tag: string, k: nat, data: seq<string>, log: seq<Action>)
    requires 1 <= k <= MaxPages + 1
    requires forall p :: 1 <= p < k ==> b.reachable(PageUrl(base, p)) && UrlYield(b, base, tag, p) != []
    requires k <= MaxPages ==> !b.reachable(PageUrl(base, k)) || UrlYield(b, base, tag, k) == []
    ensures var w := UrlWalk(b, base, tag, 1, data, log);
            && (w.exit == Raised <==> k <= MaxPages && !b.reachable(PageUrl(base, k)))
            && w.data == data + UrlGathered(b, base, tag, 1, k)
            && Navigations(w.log) == Navigations(log) + PageUrls(base, 1, if k <= MaxPages then k + 1 else k)
  {
    UrlStopExit(b, base, tag, 1, k, data, log);
    UrlStopData(b, base, tag, 1, k, data, log);
    UrlStopNavigations(b, base, tag, 1, k, data, log);
  }

  /** Every entry of `s` is stripped and non-empty. */
  predicate AllKept(s: seq<string>)
  {
    forall j :: 0 <= j < |s| ==> Kept(s[j])
  }

  /** Every entry either loop appends is stripped and non-empty. */
  lemma {:induction false} ButtonWalkKept(b: Browser, base: string, tag: string, hint: string, k: nat,
                                          data: seq<string>, log: seq<Action>)
    requires AllKept(data)
    ensures AllKept(ButtonWalk(b, base, tag, hint, k, data, log).data)
    decreases MaxPages - k
  {
    if k < MaxPages && b.load(base, tag, k).Loaded? {
      var found := Extract(b.load(base, tag, k).texts);
      var log' := log + [AwaitTag(tag)] + [Click];
      AppendKept(data, found);
      if b.click(hint, k) {
        assert ButtonWalk(b, base, tag, hint, k, data, log) == ButtonWalk(b, base, tag, hint, k + 1, data + found, log');
        ButtonWalkKept(b, base, tag, hint, k + 1, data + found, log');
      } else {
        assert ButtonWalk(b, base, tag, hint, k, data, log) == Walk(Finished, data + found, log');
      }
    }
  }

  lemma {:induction false} UrlWalkKept(b: Browser, base: string, tag: string, i: nat,
                                       data: seq<string>, log: seq<Action>)
    requires AllKept(data)
    ensures AllKept(UrlWalk(b, base, tag, i, data, log).data)
    decreases MaxPages + 1 - i
  {
    var url := PageUrl(base, i);
    if i <= MaxPages && b.reachable(url) && b.load(url, tag, 0).Loaded? {
      var found := Extract(b.load(url, tag, 0).texts);
      if found != [] {
        var log' := log + [Get(url)] + [AwaitTag(tag)];
        AppendKept(data, found);
        assert UrlWalk(b, base, tag, i, data, log) == UrlWalk(b, base, tag, i + 1, data + found, log');
        UrlWalkKept(b, base, tag, i + 1, data + found, log');
      }
    }
  }

  /** Appending kept entries to kept entries keeps them all kept. */
  lemma AppendKept(a: seq<string>, c: seq<string>)
    requires AllKept(a)
    requires forall j :: 0 <= j < |c| ==> Kept(c[j])
    ensures AllKept(a + c)
  {
    forall j | 0 <= j < |a + c|
      ensures Kept((a + c)[j])
    {
      if j >= |a| {
        assert (a + c)[j] == c[j - |a|];
      }
    }
  }

  /** Neither loop takes back a request or quits the driver: the log only grows, and
      without a `Quit`. */
  lemma {:induction false} ButtonWalkLog(b: Browser, base: string, tag: string, hint: string, k: nat,
                                         data: seq<string>, log: seq<Action>)
    requires Quit !in log
    ensures var w := ButtonWalk(b, base, tag, hint, k, data, log);
            log <= w.log && Quit !in w.log
    decreases MaxPages - k
  {
    if k < MaxPages && b.load(base, tag, k).Loaded? && b.click(hint, k) {
      var found := Extract(b.load(base, tag, k).texts);
      var log' := log + [AwaitTag(tag)] + [Click];
      ButtonWalkLog(b, base, tag, hint, k + 1, data + found, log');
      assert log <= log';
    }
  }

  lemma {:induction false} UrlWalkLog(b: Browser, base: string, tag: string, i: nat,
                                      data: seq<string>, log: seq<Action>)
    requires Quit !in log
    ensures var w := UrlWalk(b, base, tag, i, data, log);
            log <= w.log && Quit !in w.log
    decreases MaxPages + 1 - i
  {
    var url := PageUrl(base, i);
    if i <= MaxPages && b.reachable(url) && b.load(url, tag, 0).Loaded? {
      var found := Extract(b.load(url, tag, 0).texts);
      if found != [] {
        var log' := log + [Get(url)] + [AwaitTag(tag)];
        assert UrlWalk(b, base, tag, i, data, log) == UrlWalk(b, base, tag, i + 1, data + found, log');
        UrlWalkLog(b, base, tag, i + 1, data + found, log');
        assert log <= log';
      }
    }
  }
}
