/** The notification id carried by a list item's `onclick` attribute: the
    JavaScript expression `onclick.match(/Detail\/(\d+)/)` followed by taking
    capture group 1, or `null` when the pattern does not match. */
module IdExtraction {
  import opened Wrappers
  import opened Text

  /** The literal part of the pattern. */
  const Marker := "Detail/"

  /** The pattern matches at position `i`: `Detail/` starts there and is
      immediately followed by at least one digit. */
  predicate MatchesAt(s: string, i: nat) {
    i + |Marker| < |s| && s[i..i + |Marker|] == Marker && IsDigit(s[i + |Marker|])
  }

  /** The regular-expression engine's scan: try each start position from `i`
      on; at the first one where the pattern matches, the greedy `\d+`
      captures the whole digit run after the marker. */
  function MatchFrom(s: string, i: nat): Option<string>
    decreases |s| - i
  {
    if i + |Marker| >= |s| then None
    else if MatchesAt(s, i) then Some(DigitRun(s, i + |Marker|))
    else MatchFrom(s, i + 1)
  }

  /** `onclick.match(/Detail\/(\d+)/)`, then group 1, or `null`. */
  function ExtractId(onclick: string): (r: Option<string>)
    ensures r.Some? ==> IsDigits(r.value)
  {
    MatchFromDigits(onclick, 0);
    MatchFrom(onclick, 0)
  }

  lemma {:induction false} MatchFromDigits(s: string, i: nat)
    ensures MatchFrom(s, i).Some? ==> IsDigits(MatchFrom(s, i).value)
    decreases |s| - i
  {
    if i + |Marker| < |s| && !MatchesAt(s, i) {
      MatchFromDigits(s, i + 1);
    }
  }

  lemma {:induction false} MatchFromNone(s: string, i: nat)
    ensures MatchFrom(s, i).None? <==> forall j :: i <= j < |s| ==> !MatchesAt(s, j)
    decreases |s| - i
  {
    if i + |Marker| < |s| && !MatchesAt(s, i) {
      MatchFromNone(s, i + 1);
    }
  }

  lemma {:induction false} MatchFromSome(s: string, i: nat) returns (j: nat)
    requires MatchFrom(s, i).Some?
    ensures i <= j < |s| && MatchesAt(s, j) && MatchFrom(s, i).value == DigitRun(s, j + |Marker|)
    ensures forall j' :: i <= j' < j ==> !MatchesAt(s, j')
    decreases |s| - i
  {
    if MatchesAt(s, i) {
      j := i;
    } else {
      j := MatchFromSome(s, i + 1);
    }
  }

  /** The id exists exactly when the pattern occurs somewhere in `onclick`;
      it is then the maximal digit run after the LEFTMOST occurrence of
      `Detail/` that is followed by a digit. */
  lemma ExtractIdIsLeftmostMatch(onclick: string)
    ensures ExtractId(onclick).None? <==> forall i :: 0 <= i < |onclick| ==> !MatchesAt(onclick, i)
    ensures ExtractId(onclick).Some? ==>
              exists i :: 0 <= i < |onclick| && MatchesAt(onclick, i)
                          && (forall i' :: 0 <= i' < i ==> !MatchesAt(onclick, i'))
                          && ExtractId(onclick).value == DigitRun(onclick, i + |Marker|)
  {
    MatchFromNone(onclick, 0);
    if ExtractId(onclick).Some? {
      var i := MatchFromSome(onclick, 0);
    }
  }

  /** The id of an `onclick` that holds `Detail/` followed by the digits `d`
      and then a non-digit, with no earlier match, is `d`. */
  lemma {:induction false} ExtractIdOf(pre: string, d: string, post: string)
    requires forall i :: 0 <= i < |pre| ==> !MatchesAt(pre + Marker + d + post, i)
    requires IsDigits(d)
    requires post == [] || !IsDigit(post[0])
    ensures ExtractId(pre + Marker + d + post) == Some(d)
  {
    var s := pre + Marker + d + post;
    var i := |pre|;
    assert s[i..i + |Marker|] == Marker;
    assert s[i + |Marker|] == d[0];
    assert MatchesAt(s, i);
    assert s[i + |Marker|..i + |Marker| + |d|] == d;
    DigitRunIs(s, i + |Marker|, d);
    ExtractIdIsLeftmostMatch(s);
    var j :| 0 <= j < |s| && MatchesAt(s, j) && (forall j' :: 0 <= j' < j ==> !MatchesAt(s, j'))
             && ExtractId(s).value == DigitRun(s, j + |Marker|);
    assert j == i;
  }
}
