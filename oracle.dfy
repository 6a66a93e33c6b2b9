/** Option, for "a value or nothing". */
module Wrappers {
  datatype Option<T> = None | Some(value: T)
}

/** The browser-automation layer (Selenium's Chrome driver, its waits and its action
    chains) seen from scrape_thread: not a program but a fixed set of answers, one per
    question the scraper can ask. */
module Oracle {

  /** What one presence wait followed by reading the matched elements sees: either the
      wait (or the read) raises, or it returns the raw `.text` of every element of the
      requested tag, in document order, one text per element. */
  datatype PageLoad = TimedOut | Loaded(texts: seq<string>)

  /** The answers of one browser for one run.
      - `starts`: whether the driver session comes up (main.py lines 62-67);
      - `reachable(url)`: whether `driver.get(url)` returns normally (lines 69 and 100);
      - `clickable(hint)`: whether the wait for a clickable element whose id, class or
        capitalised text matches `hint` succeeds (lines 76-78);
      - `load(url, tag, clicks)`: what the presence wait and the element read for `tag`
        see on `url` after `clicks` clicks on the load-more control (lines 85-87, 102-104);
      - `click(hint, k)`: whether moving to and clicking the control found for `hint`
        succeeds the `k`-th time, counting from 0 (line 89);
      - `quits`: whether `driver.quit()` returns normally (line 111). */
  datatype Browser = Browser(
    starts: bool,
    reachable: string -> bool,
    clickable: string -> bool,
    load: (string, string, nat) -> PageLoad,
    click: (string, nat) -> bool,
    quits: bool)

  /** One request the scraper makes of the browser, in the order it makes them. */
  datatype Action =
    | StartSession
    | Get(url: string)
    | Lookup(hint: string)
    | AwaitTag(tag: string)
    | Click
    | Quit

  /** The URLs requested with `driver.get`, in order. */
  function Navigations(log: seq<Action>): seq<string>
  {
    if log == [] then []
    else (if log[0].Get? then [log[0].url] else []) + Navigations(log[1..])
  }

  /** How many clicks on the control were attempted. */
  function Clicks(log: seq<Action>): nat
  {
    if log == [] then 0 else (if log[0] == Click then 1 else 0) + Clicks(log[1..])
  }

  /** A URL was navigated to exactly when the log holds a `driver.get` of it. */
  lemma {:induction false} NavigationsMember(log: seq<Action>, url: string)
    ensures url in Navigations(log) <==> Get(url) in log
  {
    if log != [] {
      NavigationsMember(log[1..], url);
      assert log == [log[0]] + log[1..];
    }
  }

  /** No click was attempted exactly when the log holds no click. */
  lemma {:induction false} ClicksZero(log: seq<Action>)
    ensures Clicks(log) == 0 <==> Click !in log
  {
    if log != [] {
      ClicksZero(log[1..]);
      assert log == [log[0]] + log[1..];
    }
  }

  lemma {:induction false} NavigationsAppend(a: seq<Action>, b: seq<Action>)
    ensures Navigations(a + b) == Navigations(a) + Navigations(b)
  {
    if a == [] {
      assert a + b == b;
    } else {
      assert (a + b)[0] == a[0] && (a + b)[1..] == a[1..] + b;
      NavigationsAppend(a[1..], b);
    }
  }

  lemma {:induction false} ClicksAppend(a: seq<Action>, b: seq<Action>)
    ensures Clicks(a + b) == Clicks(a) + Clicks(b)
  {
    if a == [] {
      assert a + b == b;
    } else {
      assert (a + b)[0] == a[0] && (a + b)[1..] == a[1..] + b;
      ClicksAppend(a[1..], b);
    }
  }
}
