/** The search computed inside `useSearch`'s `useMemo`
    (`src/hooks/useSearch.ts`): always case-insensitive, never whole-word,
    with an extra `startIdx < lowerText.length` loop guard. */
module HookSearch {
  import opened Types
  import opened CharClass
  import opened Scan
  import RawSearch

  /** The hook's scan loop, guarded by the cursor being inside the text,
      from cursor `start`:
      the cursor strictly increases and is bounded by the text length, so
      the loop ends; every reported position is an occurrence. */
  function HookHits(text: seq<char>, pat: seq<char>, start: nat): (r: seq<nat>)
    requires |pat| > 0
    ensures forall k :: 0 <= k < |r| ==> start <= r[k] && Occurs(text, pat, r[k])
    ensures forall k :: 0 < k < |r| ==> r[k - 1] < r[k]
    decreases |text| - start
  {
    if start < |text| then
      var idx := IndexOf(text, pat, start);
      if idx == -1 then [] else [idx] + HookHits(text, pat, idx + 1)
    else []
  }

  /** One page of the hook's loop for the lower-cased query `lq`, whose
      matches cover `qLen` characters. */
  function HookPage(page: PageData, lq: seq<char>, qLen: nat): (r: seq<SearchMatch>)
    requires |lq| > 0
    ensures forall i :: 0 <= i < |r| ==>
              && r[i].pageIndex == page.index
              && r[i].charCount == qLen
              && Occurs(Fold(RawText(page.chars)), lq, r[i].charIndex)
  {
    var hits := HookHits(Fold(RawText(page.chars)), lq, 0);
    seq(|hits|, k requires 0 <= k < |hits| => SearchMatch(page.index, hits[k], qLen))
  }

  /** `useSearch(pages, query)`. */
  function UseSearch(pages: seq<PageData>, query: seq<char>): (r: seq<SearchMatch>)
    ensures IsBlank(query) ==> r == []
  {
    if IsBlank(query) then []
    else
      var lq := Fold(query);
      Flatten(seq(|pages|, k requires 0 <= k < |pages| => HookPage(pages[k], lq, |query|)))
  }

  /** The extra loop guard changes nothing for a non-empty query: once the
      cursor reaches the end of the text, `indexOf` finds nothing anyway. */
  lemma {:induction false} HookHitsAreHits(text: seq<char>, pat: seq<char>, start: nat)
    requires |pat| > 0
    ensures HookHits(text, pat, start) == Hits(text, pat, false, start)
    decreases |text| - start
  {
    var idx := IndexOf(text, pat, start);
    if start < |text| && idx != -1 {
      HookHitsAreHits(text, pat, idx + 1);
    }
  }

  /** The hook is the older `findMatches` with both options off. */
  lemma UseSearchIsFindMatches(pages: seq<PageData>, query: seq<char>)
    ensures UseSearch(pages, query) == RawSearch.FindMatches(pages, query, SearchOptions(false, false))
  {
    if !IsBlank(query) {
      var opts := SearchOptions(false, false);
      var lq := Fold(query);
      var hook := seq(|pages|, k requires 0 <= k < |pages| => HookPage(pages[k], lq, |query|));
      var raw := seq(|pages|, k requires 0 <= k < |pages| => RawSearch.PageMatches(pages[k], lq, opts));
      forall k | 0 <= k < |pages|
        ensures hook[k] == raw[k]
      {
        HookHitsAreHits(Fold(RawText(pages[k].chars)), lq, 0);
      }
      assert hook == raw;
    }
  }
}
