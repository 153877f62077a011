/** The substring scan both `findMatches` versions run over a page's text:
    `indexOf` from a cursor, an optional whole-word test, and an advance of
    exactly one position after every hit, accepted or rejected. */
module Scan {
  import opened CharClass

  /** `pat` occurs in `text` starting at position `p`. */
  predicate Occurs(text: seq<char>, pat: seq<char>, p: int)
  {
    0 <= p && p + |pat| <= |text| && text[p..p + |pat|] == pat
  }

  /** `text.indexOf(pat, from)` for a non-empty pattern: the first
      occurrence at or after `from`, or -1 when there is none. */
  function IndexOf(text: seq<char>, pat: seq<char>, from: nat): (r: int)
    requires |pat| > 0
    ensures r == -1 || (from <= r && Occurs(text, pat, r))
    ensures forall p :: from <= p && (r == -1 || p < r) ==> !Occurs(text, pat, p)
    decreases |text| - from
  {
    if from + |pat| > |text| then -1
    else if text[from..from + |pat|] == pat then from
    else IndexOf(text, pat, from + 1)
  }

  /** The whole-word test on the span `[p, p + len)`: the characters just
      before and just after it, with ' ' standing in outside the text, are
      not word characters. */
  predicate AtWordBoundary(text: seq<char>, p: nat, len: nat)
    requires p + len <= |text|
  {
    var before := if p > 0 then text[p - 1] else ' ';
    var after := if p + len < |text| then text[p + len] else ' ';
    !IsWordChar(before) && !IsWordChar(after)
  }

  /** A position the search reports: an occurrence that passes the
      whole-word test when that option is on. */
  predicate Accepted(text: seq<char>, pat: seq<char>, wholeWord: bool, p: int)
  {
    Occurs(text, pat, p) && (wholeWord ==> AtWordBoundary(text, p, |pat|))
  }

  /** The `while (true)` loop from cursor `start`: the positions it turns
      into matches, in the order it reports them. */
  function Hits(text: seq<char>, pat: seq<char>, wholeWord: bool, start: nat): (r: seq<nat>)
    requires |pat| > 0
    ensures forall k :: 0 <= k < |r| ==> start <= r[k] && Accepted(text, pat, wholeWord, r[k])
    ensures forall k :: 0 < k < |r| ==> r[k - 1] < r[k]
    decreases |text| - start
  {
    var idx := IndexOf(text, pat, start);
    if idx == -1 then []
    else if wholeWord && !AtWordBoundary(text, idx, |pat|) then Hits(text, pat, wholeWord, idx + 1)
    else [idx] + Hits(text, pat, wholeWord, idx + 1)
  }

  /** The scan misses nothing: every accepted position at or after the
      cursor is reported, overlapping ones included, and nothing else is. */
  lemma {:induction false} HitsComplete(text: seq<char>, pat: seq<char>, wholeWord: bool, start: nat, p: int)
    requires |pat| > 0
    ensures p in Hits(text, pat, wholeWord, start) <==> start <= p && Accepted(text, pat, wholeWord, p)
    decreases |text| - start
  {
    var idx := IndexOf(text, pat, start);
    if idx != -1 {
      HitsComplete(text, pat, wholeWord, idx + 1, p);
    }
  }

  /** Adjacent increase gives increase between any two positions. */
  lemma {:induction false} StrictlyIncreasing(a: seq<nat>)
    requires forall k :: 0 < k < |a| ==> a[k - 1] < a[k]
    ensures forall i, j :: 0 <= i < j < |a| ==> a[i] < a[j]
    ensures forall i, j :: 0 <= i < j < |a| ==> a[j] - a[i] >= j - i
    decreases |a|
  {
    if |a| > 1 {
      StrictlyIncreasing(a[1..]);
      forall j | 0 < j < |a|
        ensures a[j] - a[0] >= j
      {
        assert a[1..][j - 1] == a[j];
        if j > 1 {
          assert a[1..][j - 1] - a[1..][0] >= j - 1;
        }
      }
      forall i, j | 0 <= i < j < |a|
        ensures a[j] - a[i] >= j - i
      {
        if i > 0 {
          assert a[1..][j - 1] - a[1..][i - 1] >= j - i;
        }
      }
    }
  }

  /** A position whose first character differs from the pattern's is no
      occurrence. */
  lemma NotAt(text: seq<char>, pat: seq<char>, p: int)
    requires |pat| > 0
    requires 0 <= p && p + |pat| <= |text| ==> text[p] != pat[0]
    ensures !Occurs(text, pat, p)
  {
  }

  /** "aa" in "aaaa" is reported three times, at 0, 1 and 2: the cursor
      moves by one after each hit, so overlapping hits are all found. */
  lemma OverlapExample()
    ensures Hits("aaaa", "aa", false, 0) == [0, 1, 2]
  {
    assert IndexOf("aaaa", "aa", 0) == 0;
    assert IndexOf("aaaa", "aa", 1) == 1;
    assert IndexOf("aaaa", "aa", 2) == 2;
    assert IndexOf("aaaa", "aa", 3) == -1;
  }
}
