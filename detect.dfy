/** Pagination-strategy detection (main.py lines 72-83): the hints are tried in a fixed
    order and the first one whose clickable-element lookup succeeds selects button-driven
    pagination; when none does, URL-pattern pagination is used. */
module Detect {
  import opened Wrappers

  /** `button_selectors`, in the order they are tried. */
  const Hints: seq<string> := ["more", "next", "load", "show", "load-more"]

  /** The index of the first hint at or after `from` whose lookup succeeds. */
  function FirstClickable(clickable: string -> bool, from: nat): (r: Option<nat>)
    ensures r.Some? ==> from <= r.value < |Hints| && clickable(Hints[r.value])
    ensures forall k :: from <= k < |Hints| && (r.None? || k < r.value) ==> !clickable(Hints[k])
    decreases |Hints| - from
  {
    if from >= |Hints| then None
    else if clickable(Hints[from]) then Some(from)
    else FirstClickable(clickable, from + 1)
  }

  /** The hints whose lookup the scan performs before it stops: up to and including the
      winner, or all of them when none wins. */
  function Tried(found: Option<nat>): seq<string>
  {
    match found
    case Some(k) => if k < |Hints| then Hints[..k + 1] else Hints
    case None => Hints
  }

  /** The hint scan (lines 73-81): a failed lookup moves on to the next hint, the first
      successful one ends the scan. Returns the winner's index and the hints looked up. */
  method FindButton(clickable: string -> bool) returns (found: Option<nat>, tried: seq<string>)
    ensures found == FirstClickable(clickable, 0)
    ensures tried == Tried(found)
  {
    found := None;
    tried := [];
    var i := 0;
    while i < |Hints|
      invariant 0 <= i <= |Hints|
      invariant tried == Hints[..i]
      invariant forall k :: 0 <= k < i ==> !clickable(Hints[k])
    {
      tried := tried + [Hints[i]];
      if clickable(Hints[i]) {
        found := Some(i);
        FirstFrom(clickable, 0, i);
        return;
      }
      i := i + 1;
    }
    FirstFrom(clickable, 0, |Hints|);
  }

  /** When no hint in `from..i` succeeds, the scan from `from` gives the scan from `i`. */
  lemma {:induction false} FirstFrom(clickable: string -> bool, from: nat, i: nat)
    requires from <= i <= |Hints|
    requires forall k :: from <= k < i ==> !clickable(Hints[k])
    ensures FirstClickable(clickable, from) == FirstClickable(clickable, i)
    decreases i - from
  {
    if from < i {
      FirstFrom(clickable, from + 1, i);
    }
  }

  /** Priority beats document order: when both "next" and "more" are clickable, "more"
      (earlier in the list) wins; when only "next" is, it wins over later hints. */
  lemma DetectionPriority(clickable: string -> bool)
    ensures clickable("more") ==> FirstClickable(clickable, 0) == Some(0)
    ensures !clickable("more") && clickable("next") ==> FirstClickable(clickable, 0) == Some(1)
  {
  }
}
