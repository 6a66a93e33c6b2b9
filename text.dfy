/** Python's `str.strip`/`str.rstrip` and the text extraction that scrape_thread
    applies to the elements of every page it loads. */
module Text {

  /** Python's `str.isspace()` on one character; `str.strip()` with no argument removes
      exactly these from both ends of a string. */
  predicate IsSpace(c: char)
  {
    ('\t' <= c <= '\r') || ('\U{1C}' <= c <= ' ') || c == '\U{85}' || c == '\U{A0}'
    || c == '\U{1680}' || ('\U{2000}' <= c <= '\U{200A}') || c == '\U{2028}' || c == '\U{2029}'
    || c == '\U{202F}' || c == '\U{205F}' || c == '\U{3000}'
  }

  /** `s.lstrip(chars)`, where `drop` tells the characters in `chars`. */
  function TrimLeft(s: string, drop: char -> bool): string
  {
    if s != [] && drop(s[0]) then TrimLeft(s[1..], drop) else s
  }

  /** `s.rstrip(chars)`. */
  function TrimRight(s: string, drop: char -> bool): string
  {
    if s != [] && drop(s[|s| - 1]) then TrimRight(s[..|s| - 1], drop) else s
  }

  /** lstrip keeps the longest suffix of `s` that does not start with a dropped character:
      everything it removes is dropped, and what it keeps starts with a kept character. */
  lemma {:induction false} TrimLeftSpec(s: string, drop: char -> bool)
    ensures var r := TrimLeft(s, drop);
            && |r| <= |s| && r == s[|s| - |r|..]
            && (forall k :: 0 <= k < |s| - |r| ==> drop(s[k]))
            && (r == [] || !drop(r[0]))
  {
    if s != [] && drop(s[0]) {
      var t := s[1..];
      TrimLeftSpec(t, drop);
      var r := TrimLeft(t, drop);
      assert TrimLeft(s, drop) == r;
      assert r == s[|s| - |r|..] by {
        assert t[|t| - |r|..] == s[|s| - |r|..];
      }
      forall k | 0 <= k < |s| - |r|
        ensures drop(s[k])
      {
        if k > 0 {
          assert s[k] == t[k - 1];
        }
      }
    }
  }

  /** rstrip keeps the longest prefix of `s` that does not end with a dropped character. */
  lemma {:induction false} TrimRightSpec(s: string, drop: char -> bool)
    ensures var r := TrimRight(s, drop);
            && |r| <= |s| && r == s[..|r|]
            && (forall k :: |r| <= k < |s| ==> drop(s[k]))
            && (r == [] || !drop(r[|r| - 1]))
  {
    if s != [] && drop(s[|s| - 1]) {
      var t := s[..|s| - 1];
      TrimRightSpec(t, drop);
      var r := TrimRight(t, drop);
      assert TrimRight(s, drop) == r;
      assert r == s[..|r|] by {
        assert t[..|r|] == s[..|r|];
      }
      forall k | |r| <= k < |s|
        ensures drop(s[k])
      {
        if k < |s| - 1 {
          assert s[k] == t[k];
        }
      }
    }
  }

  /** `s.strip(chars)`: `s` without its leading and trailing dropped characters. */
  function Strip(s: string, drop: char -> bool): (r: string)
    ensures |r| <= |s|
    ensures r == [] || (!drop(r[0]) && !drop(r[|r| - 1]))
  {
    TrimLeftSpec(s, drop);
    TrimRightSpec(TrimLeft(s, drop), drop);
    TrimRight(TrimLeft(s, drop), drop)
  }

  /** Python's argument-less `s.strip()`. */
  function StripSpace(s: string): string
  {
    Strip(s, IsSpace)
  }

  /** A text that `strip()` turns into the empty string, which `if el.text.strip()` drops. */
  predicate Blank(s: string)
  {
    StripSpace(s) == []
  }

  /** What strip removes: the result is the slice of `s` that starts at `i`, and every
      character outside that slice is a dropped one. */
  lemma StripSlice(s: string, drop: char -> bool) returns (i: nat)
    ensures i + |Strip(s, drop)| <= |s| && Strip(s, drop) == s[i..i + |Strip(s, drop)|]
    ensures forall k :: 0 <= k < i ==> drop(s[k])
    ensures forall k :: i + |Strip(s, drop)| <= k < |s| ==> drop(s[k])
  {
    var left := TrimLeft(s, drop);
    TrimLeftSpec(s, drop);
    TrimRightSpec(left, drop);
    i := |s| - |left|;
    var r := TrimRight(left, drop);
    assert Strip(s, drop) == r;
    assert r == s[i..i + |r|] by {
      assert left[..|r|] == s[i..i + |r|];
    }
    forall k | i + |r| <= k < |s|
      ensures drop(s[k])
    {
      assert s[k] == left[k - i];
    }
  }

  /** A string that neither starts nor ends with a dropped character is left alone. */
  lemma StripFixed(s: string, drop: char -> bool)
    requires s == [] || (!drop(s[0]) && !drop(s[|s| - 1]))
    ensures Strip(s, drop) == s
  {
  }

  /** Stripping twice is stripping once. */
  lemma StripIdempotent(s: string, drop: char -> bool)
    ensures Strip(Strip(s, drop), drop) == Strip(s, drop)
  {
    StripFixed(Strip(s, drop), drop);
  }

  /** Strip yields the empty string exactly when every character is a dropped one. */
  lemma StripEmptyIff(s: string, drop: char -> bool)
    ensures Strip(s, drop) == [] <==> forall k :: 0 <= k < |s| ==> drop(s[k])
  {
    var i := StripSlice(s, drop);
    var r := Strip(s, drop);
    if r != [] {
      assert r[0] == s[i];
    }
  }

  /** `"  Hello  ".strip()` is `"Hello"`. */
  lemma StripSpaceExample()
    ensures StripSpace("  Hello  ") == "Hello"
  {
    assert TrimLeft("  Hello  ", IsSpace) == "Hello  ";
    assert TrimRight("Hello  ", IsSpace) == "Hello";
  }

  /** A non-empty text that starts and ends with a non-whitespace character: what survives
      `strip()` and the emptiness filter. */
  predicate Kept(t: string)
  {
    t != [] && !IsSpace(t[0]) && !IsSpace(t[|t| - 1])
  }

  /** `[el.text.strip() for el in elements if el.text.strip()]` (main.py lines 87 and 104),
      over the raw texts of the matched elements in document order, each text read once:
      the comprehension's two reads of `el.text` are taken to agree. */
  function Extract(texts: seq<string>): (r: seq<string>)
    ensures |r| <= |texts|
    ensures forall k :: 0 <= k < |r| ==> Kept(r[k])
  {
    if texts == [] then []
    else
      var t := StripSpace(texts[0]);
      (if t == [] then [] else [t]) + Extract(texts[1..])
  }

  /** Extraction of consecutive runs of elements is the concatenation of their extractions. */
  lemma {:induction false} ExtractAppend(a: seq<string>, b: seq<string>)
    ensures Extract(a + b) == Extract(a) + Extract(b)
  {
    if a == [] {
      assert a + b == b;
    } else {
      assert (a + b)[0] == a[0] && (a + b)[1..] == a[1..] + b;
      ExtractAppend(a[1..], b);
    }
  }

  /** Every kept entry is already stripped, so extracting the extracted list changes nothing. */
  lemma {:induction false} ExtractIdempotent(texts: seq<string>)
    ensures Extract(Extract(texts)) == Extract(texts)
  {
    if texts != [] {
      var t := StripSpace(texts[0]);
      var head := if t == [] then [] else [t];
      ExtractIdempotent(texts[1..]);
      ExtractAppend(head, Extract(texts[1..]));
      if t != [] {
        StripFixed(t, IsSpace);
        assert Extract(head) == head by {
          assert head[1..] == [];
        }
      }
    }
  }

  /** A page yields nothing exactly when every element text is blank. */
  lemma {:induction false} ExtractEmptyIff(texts: seq<string>)
    ensures Extract(texts) == [] <==> forall k :: 0 <= k < |texts| ==> Blank(texts[k])
  {
    if texts != [] {
      var rest := texts[1..];
      ExtractEmptyIff(rest);
      var t := StripSpace(texts[0]);
      assert Extract(texts) == (if t == [] then [] else [t]) + Extract(rest);
      if t == [] {
        assert Extract(texts) == Extract(rest);
        if forall k :: 0 <= k < |rest| ==> Blank(rest[k]) {
          forall k | 0 <= k < |texts| ensures Blank(texts[k]) {
            if k > 0 { assert texts[k] == rest[k - 1]; }
          }
        }
        if forall k :: 0 <= k < |texts| ==> Blank(texts[k]) {
          forall k | 0 <= k < |rest| ensures Blank(rest[k]) {
            assert rest[k] == texts[k + 1];
          }
        }
      } else {
        assert !Blank(texts[0]);
        assert Extract(texts)[0] == t;
      }
    }
  }

  /** An entry is in the extraction exactly when it is the non-empty strip of some element text. */
  lemma {:induction false} ExtractMember(texts: seq<string>, x: string)
    ensures x in Extract(texts) <==> exists k :: 0 <= k < |texts| && x == StripSpace(texts[k]) && x != []
  {
    if texts != [] {
      var rest := texts[1..];
      ExtractMember(rest, x);
      var t := StripSpace(texts[0]);
      var head := if t == [] then [] else [t];
      assert Extract(texts) == head + Extract(rest);
      assert x in Extract(texts) <==> x in head || x in Extract(rest);
      if x in Extract(rest) {
        var k :| 0 <= k < |rest| && x == StripSpace(rest[k]) && x != [];
        assert rest[k] == texts[k + 1];
      }
      if exists k :: 0 <= k < |texts| && x == StripSpace(texts[k]) && x != [] {
        var k :| 0 <= k < |texts| && x == StripSpace(texts[k]) && x != [];
        if k > 0 {
          assert texts[k] == rest[k - 1];
        }
      }
    }
  }

  /** `"".strip()` and `" \t ".strip()` are empty; `"World".strip()` is `"World"`. */
  lemma StripSpaceBlankExamples()
    ensures Blank("") && Blank(" \t ")
    ensures StripSpace("World") == "World"
  {
    assert TrimLeft(" \t ", IsSpace) == [];
    StripFixed("World", IsSpace);
  }

  /** Surrounding whitespace is trimmed, and empty or whitespace-only texts contribute nothing. */
  lemma ExtractExample()
    ensures Extract(["  Hello  ", "", " \t ", "World"]) == ["Hello", "World"]
  {
    var hello, empty, blank, world := "  Hello  ", "", " \t ", "World";
    StripSpaceBlankExamples();
    StripSpaceExample();
    ExtractAppend([hello], [empty, blank, world]);
    ExtractAppend([empty], [blank, world]);
    ExtractAppend([blank], [world]);
    assert [hello] + [empty, blank, world] == [hello, empty, blank, world];
    assert [empty] + [blank, world] == [empty, blank, world];
    assert [blank] + [world] == [blank, world];
  }
}
