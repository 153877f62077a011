/** `findMatches` of `src/services/search.ts`: the older search, which scans
    the raw page text directly. A hit at text position `p` is a match at
    character `p`, covering as many characters as the query has. */
module RawSearch {
  import opened Types
  import opened CharClass
  import opened Scan

  /** The page text as searched: folded unless the search is case-sensitive. */
  function SearchText(page: PageData, caseSensitive: bool): (t: seq<char>)
    ensures |t| == |page.chars|
  {
    Cased(caseSensitive, RawText(page.chars))
  }

  /** One iteration of the `for (const page of pages)` loop for the
      prepared query `q`: every match is an occurrence of `q` in the
      searched text, inside the page, and the matches start at strictly
      increasing characters. */
  function PageMatches(page: PageData, q: seq<char>, opts: SearchOptions): (r: seq<SearchMatch>)
    requires |q| > 0
    ensures forall i :: 0 <= i < |r| ==>
              && r[i].pageIndex == page.index
              && r[i].charCount == |q|
              && 0 <= r[i].charIndex
              && r[i].charIndex + |q| <= |page.chars|
              && SearchText(page, opts.caseSensitive)[r[i].charIndex..r[i].charIndex + |q|] == q
    ensures InReadingOrder(r)
  {
    var hits := Hits(SearchText(page, opts.caseSensitive), q, opts.wholeWord, 0);
    StrictlyIncreasing(hits);
    seq(|hits|, k requires 0 <= k < |hits| => SearchMatch(page.index, hits[k], |q|))
  }

  /** All matches of `query` over `pages`, in page order. The query is
      folded exactly when the page text is. */
  function FindMatches(pages: seq<PageData>, query: seq<char>, opts: SearchOptions): (r: seq<SearchMatch>)
    ensures IsBlank(query) ==> r == []
  {
    if IsBlank(query) then []
    else
      var q := Cased(opts.caseSensitive, query);
      Flatten(seq(|pages|, k requires 0 <= k < |pages| => PageMatches(pages[k], q, opts)))
  }

  /** A page's matches are exactly the accepted positions of `q` in its
      searched text, each covering `|q|` characters. */
  lemma PageMatchesExact(page: PageData, q: seq<char>, opts: SearchOptions, m: SearchMatch)
    requires |q| > 0
    ensures m in PageMatches(page, q, opts) <==>
              && m.pageIndex == page.index
              && m.charCount == |q|
              && Accepted(SearchText(page, opts.caseSensitive), q, opts.wholeWord, m.charIndex)
  {
    var text := SearchText(page, opts.caseSensitive);
    var hits := Hits(text, q, opts.wholeWord, 0);
    var r := PageMatches(page, q, opts);
    HitsComplete(text, q, opts.wholeWord, 0, m.charIndex);
    if m in r {
      var k :| 0 <= k < |r| && r[k] == m;
      assert m.charIndex == hits[k];
    }
    if m.pageIndex == page.index && m.charCount == |q| && Accepted(text, q, opts.wholeWord, m.charIndex) {
      var k :| 0 <= k < |hits| && hits[k] == m.charIndex;
      assert r[k] == m;
    }
  }

  /** The whole result: a match is reported exactly when the query is not
      blank and the match is an accepted occurrence of the prepared query
      on some page with the match's page index, covering `query.length`
      characters. */
  lemma MatchesExact(pages: seq<PageData>, query: seq<char>, opts: SearchOptions, m: SearchMatch)
    ensures m in FindMatches(pages, query, opts) <==>
              && !IsBlank(query)
              && m.charCount == |query|
              && exists k :: 0 <= k < |pages| && pages[k].index == m.pageIndex
                   && Accepted(SearchText(pages[k], opts.caseSensitive), Cased(opts.caseSensitive, query),
                               opts.wholeWord, m.charIndex)
  {
    if !IsBlank(query) {
      var q := Cased(opts.caseSensitive, query);
      var chunks := seq(|pages|, k requires 0 <= k < |pages| => PageMatches(pages[k], q, opts));
      FlattenMember(chunks, m);
      forall k | 0 <= k < |pages|
        ensures m in chunks[k] <==>
                  pages[k].index == m.pageIndex && m.charCount == |query|
                  && Accepted(SearchText(pages[k], opts.caseSensitive), q, opts.wholeWord, m.charIndex)
      {
        PageMatchesExact(pages[k], q, opts, m);
      }
    }
  }

  /** For pages numbered in order, matches come out ordered by page and,
      within a page, by strictly increasing `charIndex`. */
  lemma MatchesInReadingOrder(pages: seq<PageData>, query: seq<char>, opts: SearchOptions)
    requires PagesInOrder(pages)
    ensures InReadingOrder(FindMatches(pages, query, opts))
  {
    if !IsBlank(query) {
      var q := Cased(opts.caseSensitive, query);
      var chunks := seq(|pages|, k requires 0 <= k < |pages| => PageMatches(pages[k], q, opts));
      forall k, m: SearchMatch | 0 <= k < |chunks| && m in chunks[k]
        ensures m.pageIndex == pages[k].index
      {
        var i :| 0 <= i < |chunks[k]| && chunks[k][i] == m;
      }
      FlattenInReadingOrder(pages, chunks);
    }
  }

  /** Without case-sensitivity the query's case does not matter: searching
      for its lower-cased form gives the same matches. */
  lemma CaseIgnored(pages: seq<PageData>, query: seq<char>, wholeWord: bool)
    ensures FindMatches(pages, Fold(query), SearchOptions(false, wholeWord))
         == FindMatches(pages, query, SearchOptions(false, wholeWord))
  {
    FoldKeepsSpace(query);
    FoldIdempotent(query);
  }
}
