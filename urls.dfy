/** The page-URL builder of URL-pattern pagination (main.py lines 95-98), with the Python
    string operations it uses: `in`, `str.replace`, `str.rstrip` and `str(i)`. */
module Urls {
  import opened Seqs
  import opened Text

  /** The token a base URL may embed to say where the page number goes. */
  const Placeholder: string := "{page}"

  /** Python's `sub in s`. */
  predicate Contains(s: string, sub: string)
    decreases |s|
  {
    |sub| <= |s| && (s[..|sub|] == sub || Contains(s[1..], sub))
  }

  /** The number of occurrences the `str.replace` scan replaces: those met left to right,
      skipping over each one found. A measure for the proofs about `ReplaceAll`. */
  function Count(s: string, pat: string): nat
    requires pat != []
    decreases |s|
  {
    if |s| < |pat| then 0
    else if s[..|pat|] == pat then 1 + Count(s[|pat|..], pat)
    else Count(s[1..], pat)
  }

  /** Python's `s.replace(pat, rep)`: every occurrence found by the same scan is replaced. */
  function ReplaceAll(s: string, pat: string, rep: string): string
    requires pat != []
    decreases |s|
  {
    if |s| < |pat| then s
    else if s[..|pat|] == pat then rep + ReplaceAll(s[|pat|..], pat, rep)
    else [s[0]] + ReplaceAll(s[1..], pat, rep)
  }

  /** The scan counts something exactly when `pat` occurs. */
  lemma {:induction false} CountPositive(s: string, pat: string)
    requires pat != []
    ensures Count(s, pat) > 0 <==> Contains(s, pat)
    decreases |s|
  {
    if |s| >= |pat| && s[..|pat|] != pat {
      CountPositive(s[1..], pat);
    }
  }

  /** Without an occurrence, replacing changes nothing. */
  lemma {:induction false} ReplaceAllAbsent(s: string, pat: string, rep: string)
    requires pat != [] && !Contains(s, pat)
    ensures ReplaceAll(s, pat, rep) == s
    decreases |s|
  {
    if |s| >= |pat| {
      ReplaceAllAbsent(s[1..], pat, rep);
      assert [s[0]] + s[1..] == s;
    }
  }

  /** Each replacement trades `|pat|` characters for `|rep|` ones. */
  lemma {:induction false} ReplaceAllLength(s: string, pat: string, rep: string)
    requires pat != []
    ensures |ReplaceAll(s, pat, rep)| + Count(s, pat) * |pat| == |s| + Count(s, pat) * |rep|
    decreases |s|
  {
    if |s| < |pat| {
    } else if s[..|pat|] == pat {
      var rest := s[|pat|..];
      ReplaceAllLength(rest, pat, rep);
      LengthStep(|ReplaceAll(rest, pat, rep)|, Count(rest, pat), |pat|, |rep|, |rest|);
    } else {
      ReplaceAllLength(s[1..], pat, rep);
    }
  }

  /** The arithmetic of one replacement step, kept apart so that the solver meets the
      products in a small context. */
  lemma LengthStep(r: int, c: int, p: int, q: int, n: int)
    requires r + c * p == n + c * q
    ensures (q + r) + (c + 1) * p == (n + p) + (c + 1) * q
  {
  }

  /** `pat` occurs in `s` starting at index `n`. */
  predicate MatchesAt(s: string, pat: string, n: nat)
  {
    n + |pat| <= |s| && s[n..n + |pat|] == pat
  }

  /** An occurrence at some index is an occurrence. */
  lemma {:induction false} ContainsAt(s: string, pat: string, n: nat)
    requires MatchesAt(s, pat, n)
    ensures Contains(s, pat)
    decreases n
  {
    if n > 0 {
      assert s[1..][n - 1..n - 1 + |pat|] == s[n..n + |pat|];
      ContainsAt(s[1..], pat, n - 1);
    } else {
      assert s[..|pat|] == s[n..n + |pat|];
    }
  }

  /** Dropping the first character moves every non-occurrence one place to the left. */
  lemma NoMatchShift(s: string, pat: string, n: nat)
    requires 0 < n <= |s|
    requires forall k :: 0 <= k < n ==> !MatchesAt(s, pat, k)
    ensures forall k :: 0 <= k < n - 1 ==> !MatchesAt(s[1..], pat, k)
  {
    var t := s[1..];
    forall k | 0 <= k < n - 1
      ensures !MatchesAt(t, pat, k)
    {
      assert !MatchesAt(s, pat, k + 1);
      if k + |pat| <= |t| {
        assert t[k..k + |pat|] == s[k + 1..k + 1 + |pat|];
      }
    }
  }

  /** When no occurrence of `pat` starts before `n`, the scan keeps `s[..n]` unchanged and
      goes on from `n`. */
  lemma {:induction false} ReplaceKeepsPrefix(s: string, pat: string, rep: string, n: nat)
    requires pat != [] && n <= |s|
    requires forall k :: 0 <= k < n ==> !MatchesAt(s, pat, k)
    ensures ReplaceAll(s, pat, rep) == s[..n] + ReplaceAll(s[n..], pat, rep)
    decreases n
  {
    if n == 0 {
      assert s[..n] == [] && s[n..] == s;
    } else if |s| < |pat| {
      ReplaceAllShort(s, pat, rep);
      ReplaceAllShort(s[n..], pat, rep);
      assert s[..n] + s[n..] == s;
    } else {
      ReplaceSkip(s, pat, rep);
      NoMatchShift(s, pat, n);
      ReplaceKeepsPrefix(s[1..], pat, rep, n - 1);
      SliceShift(s, n, n);
      var head := s[1..][..n - 1];
      Regroup([s[0]], head, ReplaceAll(s[n..], pat, rep));
    }
  }

  /** A string shorter than `pat` is left alone. */
  lemma ReplaceAllShort(s: string, pat: string, rep: string)
    requires pat != [] && |s| < |pat|
    ensures ReplaceAll(s, pat, rep) == s
  {
  }

  /** The scan replaces the leftmost occurrence first: when the first occurrence of `pat`
      in `s` starts at `n`, the result keeps `s[..n]`, puts `rep` for that occurrence and goes
      on with what follows it. */
  lemma ReplaceLeftmost(s: string, pat: string, rep: string, n: nat)
    requires pat != [] && MatchesAt(s, pat, n)
    requires forall k :: 0 <= k < n ==> !MatchesAt(s, pat, k)
    ensures ReplaceAll(s, pat, rep) == s[..n] + rep + ReplaceAll(s[n + |pat|..], pat, rep)
  {
    ReplaceKeepsPrefix(s, pat, rep, n);
    var u := s[n..];
    assert MatchesAt(u, pat, 0) by {
      assert u[0..|pat|] == s[n..n + |pat|];
    }
    ReplaceAtStart(u, pat, rep);
    assert u[|pat|..] == s[n + |pat|..];
    Regroup(s[..n], rep, ReplaceAll(s[n + |pat|..], pat, rep));
  }

  /** An occurrence at the start is replaced, and the scan goes on after it. */
  lemma ReplaceAtStart(s: string, pat: string, rep: string)
    requires pat != [] && MatchesAt(s, pat, 0)
    ensures ReplaceAll(s, pat, rep) == rep + ReplaceAll(s[|pat|..], pat, rep)
  {
    assert s[..|pat|] == s[0..|pat|];
  }

  /** No occurrence at the start: the first character is kept and the scan moves on by one. */
  lemma ReplaceSkip(s: string, pat: string, rep: string)
    requires pat != [] && |pat| <= |s| && !MatchesAt(s, pat, 0)
    ensures ReplaceAll(s, pat, rep) == [s[0]] + ReplaceAll(s[1..], pat, rep)
  {
    assert s[..|pat|] == s[0..|pat|];
  }

  /** When `pat` occurs, different replacements give different results. */
  lemma ReplaceAllInjective(s: string, pat: string, rep1: string, rep2: string)
    requires pat != [] && Contains(s, pat)
    requires ReplaceAll(s, pat, rep1) == ReplaceAll(s, pat, rep2)
    ensures rep1 == rep2
  {
    var n := Count(s, pat);
    CountPositive(s, pat);
    ReplaceAllLength(s, pat, rep1);
    ReplaceAllLength(s, pat, rep2);
    assert n * |rep1| == n * |rep2|;
    assert |rep1| == |rep2| by {
      if |rep1| < |rep2| {
        MulStrict(n, |rep1|, |rep2|);
      } else if |rep1| > |rep2| {
        MulStrict(n, |rep2|, |rep1|);
      }
    }
    ReplaceAllSameLength(s, pat, rep1, rep2);
  }

  /** Multiplying by a positive count keeps a strict order (non-linear, so kept apart). */
  lemma MulStrict(n: nat, a: nat, b: nat)
    requires n > 0 && a < b
    ensures n * a < n * b
  {
  }

  lemma {:induction false} ReplaceAllSameLength(s: string, pat: string, rep1: string, rep2: string)
    requires pat != [] && Contains(s, pat) && |rep1| == |rep2|
    requires ReplaceAll(s, pat, rep1) == ReplaceAll(s, pat, rep2)
    ensures rep1 == rep2
    decreases |s|
  {
    if s[..|pat|] == pat {
      assert rep1 == ReplaceAll(s, pat, rep1)[..|rep1|];
    } else {
      var t1, t2 := ReplaceAll(s[1..], pat, rep1), ReplaceAll(s[1..], pat, rep2);
      assert [s[0]] + t1 == [s[0]] + t2;
      assert t1 == ([s[0]] + t1)[1..];
      assert t2 == ([s[0]] + t2)[1..];
      ReplaceAllSameLength(s[1..], pat, rep1, rep2);
    }
  }

  /** The character `'0' + d`. */
  function Digit(d: nat): (c: char)
    requires d < 10
    ensures '0' <= c <= '9'
  {
    ('0' as int + d) as char
  }

  predicate IsDigits(s: string)
  {
    forall k :: 0 <= k < |s| ==> '0' <= s[k] <= '9'
  }

  /** Python's `str(n)` for a non-negative integer: decimal digits, most significant first,
      with no leading zero except for 0 itself. */
  function Decimal(n: nat): string
  {
    if n < 10 then [Digit(n)] else Decimal(n / 10) + [Digit(n % 10)]
  }

  /** `str(n)` is a non-empty string of digits that starts with 0 only for 0 itself. */
  lemma {:induction false} DecimalDigits(n: nat)
    ensures var r := Decimal(n);
            r != [] && IsDigits(r) && ((r[0] == '0') == (n == 0))
  {
    if n >= 10 {
      DecimalDigits(n / 10);
      var d := Decimal(n / 10);
      assert Decimal(n) == d + [Digit(n % 10)];
      assert Decimal(n)[0] == d[0];
    }
  }

  /** The number a string of decimal digits denotes (Python's `int(s)` on such a string). */
  function DecimalValue(s: string): nat
    requires IsDigits(s)
  {
    if s == [] then 0 else 10 * DecimalValue(s[..|s| - 1]) + (s[|s| - 1] as int - '0' as int)
  }

  /** Reading back the decimal form of `n` gives `n`. */
  lemma {:induction false} DecimalRoundTrip(n: nat)
    ensures IsDigits(Decimal(n)) && DecimalValue(Decimal(n)) == n
  {
    DecimalDigits(n);
    if n >= 10 {
      DecimalRoundTrip(n / 10);
      var d := Decimal(n);
      assert d[..|d| - 1] == Decimal(n / 10);
    }
  }

  /** Distinct page numbers have distinct decimal forms. */
  lemma DecimalInjective(i: nat, j: nat)
    requires Decimal(i) == Decimal(j)
    ensures i == j
  {
    DecimalRoundTrip(i);
    DecimalRoundTrip(j);
  }

  predicate IsSlash(c: char)
  {
    c == '/'
  }

  /** The URL of page `i` for the stripped base URL `base` (main.py lines 95-98): with the
      placeholder, `base.replace("{page}", str(i))`; without it,
      `base.rstrip("/") + "/page/" + str(i) + "/"`. */
  function PageUrl(base: string, i: nat): (url: string)
  {
    if Contains(base, Placeholder) then ReplaceAll(base, Placeholder, Decimal(i))
    else TrimRight(base, IsSlash) + "/page/" + Decimal(i) + "/"
  }

  /** Without the placeholder, the URL is `stem + "/page/" + str(i) + "/"` where `stem` is
      the base with all its trailing slashes removed. */
  lemma PageUrlWithoutPlaceholder(base: string, i: nat) returns (stem: string)
    requires !Contains(base, Placeholder)
    ensures PageUrl(base, i) == stem + "/page/" + Decimal(i) + "/"
    ensures |stem| <= |base| && stem == base[..|stem|]
    ensures forall k :: |stem| <= k < |base| ==> base[k] == '/'
    ensures stem == [] || stem[|stem| - 1] != '/'
  {
    stem := TrimRight(base, IsSlash);
    TrimRightSpec(base, IsSlash);
  }

  /** Every page number gets its own URL, in both modes. */
  lemma PageUrlInjective(base: string, i: nat, j: nat)
    requires PageUrl(base, i) == PageUrl(base, j)
    ensures i == j
  {
    if Contains(base, Placeholder) {
      ReplaceAllInjective(base, Placeholder, Decimal(i), Decimal(j));
    } else {
      var stem := TrimRight(base, IsSlash) + "/page/";
      var di, dj := Decimal(i), Decimal(j);
      assert stem + di + "/" == stem + dj + "/";
      assert |di| == |dj|;
      assert di == (stem + di + "/")[|stem|..|stem| + |di|];
      assert dj == (stem + dj + "/")[|stem|..|stem| + |dj|];
    }
    DecimalInjective(i, j);
  }

  /** A base without `{` and without a trailing slash gets `"/page/" + str(i) + "/"`
      appended as it is. */
  lemma PlainPageUrl(base: string, i: nat)
    requires '{' !in base && base != [] && base[|base| - 1] != '/'
    ensures PageUrl(base, i) == base + "/page/" + Decimal(i) + "/"
  {
    MissingCharNoMatch(base, Placeholder, '{');
  }

  /** `"http://x/a"` at page 3 gives `"http://x/a/page/3/"`. */
  lemma PageUrlSuffixExample()
    ensures PageUrl("http://x/a", 3) == "http://x/a/page/3/"
  {
    var base := "http://x/a";
    MissingCharNoMatch(base, Placeholder, '{');
    assert Decimal(3) == "3";
  }

  /** `"http://x/p{page}"` at page 3 gives `"http://x/p3"`. */
  lemma PageUrlPlaceholderExample()
    ensures PageUrl("http://x/p{page}", 3) == "http://x/p3"
  {
    var base := "http://x/p{page}";
    NoBraceNoMatch(base, 10);
    PlaceholderAt(base, 10);
    assert base[..10] == "http://x/p" && base[16..] == [];
    assert Decimal(3) == "3";
    ReplaceAllShort([], Placeholder, "3");
    assert PageUrl(base, 3) == "http://x/p" + "3" + [];
  }

  /** With the placeholder no slash is stripped: `"http://x/{page}/"` at page 3 gives
      `"http://x/3/"`. */
  lemma PageUrlPlaceholderKeepsSlash()
    ensures PageUrl("http://x/{page}/", 3) == "http://x/3/"
  {
    var base := "http://x/{page}/";
    NoBraceNoMatch(base, 9);
    PlaceholderAt(base, 9);
    assert base[..9] == "http://x/" && base[15..] == "/";
    assert Decimal(3) == "3";
    ReplaceAllShort("/", Placeholder, "3");
    assert PageUrl(base, 3) == "http://x/" + "3" + "/";
  }

  /** When the placeholder first occurs at `n`, the page URL is `base[..n]`, the page number
      and what the replacement makes of the rest. */
  lemma PlaceholderAt(base: string, n: nat)
    requires MatchesAt(base, Placeholder, n)
    requires forall k :: 0 <= k < n ==> !MatchesAt(base, Placeholder, k)
    ensures forall i: nat :: PageUrl(base, i)
              == base[..n] + Decimal(i) + ReplaceAll(base[n + |Placeholder|..], Placeholder, Decimal(i))
  {
    ContainsAt(base, Placeholder, n);
    forall i: nat
      ensures PageUrl(base, i)
              == base[..n] + Decimal(i) + ReplaceAll(base[n + |Placeholder|..], Placeholder, Decimal(i))
    {
      ReplaceLeftmost(base, Placeholder, Decimal(i), n);
    }
  }

  /** No occurrence of the placeholder starts before the first `{`. */
  lemma NoBraceNoMatch(base: string, n: nat)
    requires n <= |base| && '{' !in base[..n]
    ensures forall k :: 0 <= k < n ==> !MatchesAt(base, Placeholder, k)
  {
    forall k | 0 <= k < n
      ensures !MatchesAt(base, Placeholder, k)
    {
      assert base[k] == base[..n][k];
      if k + |Placeholder| <= |base| {
        assert base[k..k + |Placeholder|][0] == base[k];
      }
    }
  }

  /** A string lacking one of the characters of `pat` does not contain `pat`. */
  lemma {:induction false} MissingCharNoMatch(s: string, pat: string, c: char)
    requires c in pat && c !in s
    ensures !Contains(s, pat)
    decreases |s|
  {
    if |pat| <= |s| {
      assert s[..|pat|] != pat by {
        assert forall x :: x in s[..|pat|] ==> x in s;
      }
      assert forall x :: x in s[1..] ==> x in s;
      MissingCharNoMatch(s[1..], pat, c);
    }
  }
}
