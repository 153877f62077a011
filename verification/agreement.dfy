/** The whitespace-normalising search of `src/lib/services/search.ts`
    refines the older raw-text search of `src/services/search.ts`: where
    neither the pages nor the query hold whitespace there is nothing to
    normalise, and the two return the same matches. */
module Agreement {
  import opened Types
  import opened CharClass
  import opened Normalization
  import WsSearch
  import RawSearch

  /** On a whitespace-free page, with a whitespace-free prepared query, the
      two page scans agree match for match. */
  lemma PageAgrees(page: PageData, q: seq<char>, opts: SearchOptions)
    requires |q| > 0
    requires NoSpace(RawText(page.chars))
    ensures WsSearch.PageMatches(page, q, opts) == RawSearch.PageMatches(page, q, opts)
  {
    var raw := RawText(page.chars);
    NoSpaceIdentity(raw);
    assert WsSearch.SearchText(page, opts.caseSensitive) == RawSearch.SearchText(page, opts.caseSensitive);
    var ws := WsSearch.PageMatches(page, q, opts);
    var rs := RawSearch.PageMatches(page, q, opts);
    assert |ws| == |rs|;
    forall i | 0 <= i < |ws|
      ensures ws[i] == rs[i]
    {
      assert ws[i].charIndex == rs[i].charIndex;
    }
  }

  /** Whitespace-free pages and query: the new search is the old one. */
  lemma FindMatchesAgree(pages: seq<PageData>, query: seq<char>, opts: SearchOptions)
    requires NoSpace(query)
    requires forall k :: 0 <= k < |pages| ==> NoSpace(RawText(pages[k].chars))
    ensures WsSearch.FindMatches(pages, query, opts) == RawSearch.FindMatches(pages, query, opts)
  {
    if !IsBlank(query) {
      var q := Cased(opts.caseSensitive, query);
      FoldKeepsSpace(query);
      NoSpaceIdentity(q);
      assert WsSearch.SearchQuery(query, opts.caseSensitive) == q;
      var ws := seq(|pages|, k requires 0 <= k < |pages| => WsSearch.PageMatches(pages[k], q, opts));
      var rs := seq(|pages|, k requires 0 <= k < |pages| => RawSearch.PageMatches(pages[k], q, opts));
      forall k | 0 <= k < |pages|
        ensures ws[k] == rs[k]
      {
        PageAgrees(pages[k], q, opts);
      }
      assert ws == rs;
    }
  }
}
