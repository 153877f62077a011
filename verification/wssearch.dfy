/** `findMatches` of `src/lib/services/search.ts`: the search runs over the
    whitespace-normalised page text, and each hit is translated back to the
    original characters through the index map. */
module WsSearch {
  import opened Types
  import opened CharClass
  import opened Scan
  import opened Normalization

  /** A hit's match: the raw run from the character behind the first
      position of the normalised span `[idx, idx + len)` to the character
      behind its last position, inclusive. */
  function Translate(indexMap: seq<nat>, pageIndex: int, idx: nat, len: nat): SearchMatch
    requires 0 < len && idx + len <= |indexMap|
  {
    var first: int := indexMap[idx];
    var last: int := indexMap[idx + len - 1];
    SearchMatch(pageIndex, first, last - first + 1)
  }

  /** The page text as searched: normalised, then folded unless the search
      is case-sensitive. */
  function SearchText(page: PageData, caseSensitive: bool): (t: seq<char>)
    ensures |t| == |Normalize(RawText(page.chars)).indexMap|
  {
    Cased(caseSensitive, Normalize(RawText(page.chars)).text)
  }

  /** The query as searched: folded unless case-sensitive, then collapsed. */
  function SearchQuery(query: seq<char>, caseSensitive: bool): (q: seq<char>)
    ensures |q| <= |query|
    ensures |q| == 0 <==> |query| == 0
  {
    Collapse(Cased(caseSensitive, query))
  }

  /** One iteration of the `for (const page of pages)` loop, for the
      prepared query `q`. Every match lies inside the page, covers at least
      as many characters as the query has, and the page's matches start at
      strictly increasing characters. */
  function PageMatches(page: PageData, q: seq<char>, opts: SearchOptions): (r: seq<SearchMatch>)
    requires |q| > 0
    ensures forall i :: 0 <= i < |r| ==>
              && r[i].pageIndex == page.index
              && 0 <= r[i].charIndex
              && |q| <= r[i].charCount
              && r[i].charIndex + r[i].charCount <= |page.chars|
    ensures InReadingOrder(r)
  {
    var hits := Hits(SearchText(page, opts.caseSensitive), q, opts.wholeWord, 0);
    TranslateHits(Normalize(RawText(page.chars)).indexMap, |page.chars|, page.index, hits, |q|)
  }

  /** The matches pushed for increasing hits inside the normalised text,
      through an increasing index map into a text of `n` characters: every
      run lies inside the raw text and covers at least `len` characters,
      and later hits translate to runs starting further on. */
  function TranslateHits(indexMap: seq<nat>, n: nat, pageIndex: int, hits: seq<nat>, len: nat): (r: seq<SearchMatch>)
    requires 0 < len
    requires forall k :: 0 <= k < |indexMap| ==> indexMap[k] < n
    requires forall k :: 0 < k < |indexMap| ==> indexMap[k - 1] < indexMap[k]
    requires forall k :: 0 <= k < |hits| ==> hits[k] + len <= |indexMap|
    requires forall k :: 0 < k < |hits| ==> hits[k - 1] < hits[k]
    ensures |r| == |hits|
    ensures forall k :: 0 <= k < |hits| ==> r[k] == Translate(indexMap, pageIndex, hits[k], len)
    ensures forall k :: 0 <= k < |r| ==>
              && r[k].pageIndex == pageIndex
              && 0 <= r[k].charIndex
              && len <= r[k].charCount
              && r[k].charIndex + r[k].charCount <= n
    ensures InReadingOrder(r)
  {
    StrictlyIncreasing(indexMap);
    StrictlyIncreasing(hits);
    seq(|hits|, k requires 0 <= k < |hits| => Translate(indexMap, pageIndex, hits[k], len))
  }

  /** All matches of `query` over `pages`, in page order. */
  function FindMatches(pages: seq<PageData>, query: seq<char>, opts: SearchOptions): (r: seq<SearchMatch>)
    ensures IsBlank(query) ==> r == []
  {
    if IsBlank(query) then []
    else
      var q := SearchQuery(query, opts.caseSensitive);
      Flatten(seq(|pages|, k requires 0 <= k < |pages| => PageMatches(pages[k], q, opts)))
  }

  /** A page's matches are exactly the translations of the accepted
      positions of the prepared query in the page's searched text. */
  lemma PageMatchesExact(page: PageData, q: seq<char>, opts: SearchOptions, m: SearchMatch)
    requires |q| > 0
    ensures m in PageMatches(page, q, opts) <==>
              exists p :: Accepted(SearchText(page, opts.caseSensitive), q, opts.wholeWord, p)
                && m == Translate(Normalize(RawText(page.chars)).indexMap, page.index, p, |q|)
  {
    var text := SearchText(page, opts.caseSensitive);
    var indexMap := Normalize(RawText(page.chars)).indexMap;
    if m in PageMatches(page, q, opts) {
      var p := PageMatchSource(page, q, opts, m);
    }
    if exists p :: Accepted(text, q, opts.wholeWord, p) && m == Translate(indexMap, page.index, p, |q|) {
      var p :| Accepted(text, q, opts.wholeWord, p) && m == Translate(indexMap, page.index, p, |q|);
      PageMatchFound(page, q, opts, p);
    }
  }

  /** Each reported match comes from an accepted position. */
  lemma PageMatchSource(page: PageData, q: seq<char>, opts: SearchOptions, m: SearchMatch) returns (p: nat)
    requires |q| > 0
    requires m in PageMatches(page, q, opts)
    ensures Accepted(SearchText(page, opts.caseSensitive), q, opts.wholeWord, p)
    ensures m == Translate(Normalize(RawText(page.chars)).indexMap, page.index, p, |q|)
  {
    var r := PageMatches(page, q, opts);
    var hits := Hits(SearchText(page, opts.caseSensitive), q, opts.wholeWord, 0);
    var k :| 0 <= k < |r| && r[k] == m;
    p := hits[k];
  }

  /** Each accepted position is reported. */
  lemma PageMatchFound(page: PageData, q: seq<char>, opts: SearchOptions, p: int)
    requires |q| > 0
    requires Accepted(SearchText(page, opts.caseSensitive), q, opts.wholeWord, p)
    ensures Translate(Normalize(RawText(page.chars)).indexMap, page.index, p, |q|) in PageMatches(page, q, opts)
  {
    var text := SearchText(page, opts.caseSensitive);
    var hits := Hits(text, q, opts.wholeWord, 0);
    HitsComplete(text, q, opts.wholeWord, 0, p);
    var k :| 0 <= k < |hits| && hits[k] == p;
    assert PageMatches(page, q, opts)[k] == Translate(Normalize(RawText(page.chars)).indexMap, page.index, p, |q|);
  }

  /** Every match lies inside a page of the input with that page's index,
      and covers at least one character. */
  lemma MatchesWithinPages(pages: seq<PageData>, query: seq<char>, opts: SearchOptions, m: SearchMatch)
    requires m in FindMatches(pages, query, opts)
    ensures exists k :: 0 <= k < |pages| && pages[k].index == m.pageIndex
              && 0 <= m.charIndex && 1 <= m.charCount && m.charIndex + m.charCount <= |pages[k].chars|
  {
    var q := SearchQuery(query, opts.caseSensitive);
    var chunks := seq(|pages|, k requires 0 <= k < |pages| => PageMatches(pages[k], q, opts));
    FlattenMember(chunks, m);
    var k :| 0 <= k < |chunks| && m in chunks[k];
    var r := PageMatches(pages[k], q, opts);
    assert m in r;
    var i :| 0 <= i < |r| && r[i] == m;
    assert pages[k].index == m.pageIndex && 1 <= m.charCount && m.charIndex + m.charCount <= |pages[k].chars|;
  }

  /** The whole result: a match is reported exactly when the query is not
      blank and the match is the translation of an accepted position of
      the prepared query on some page. */
  lemma MatchesExact(pages: seq<PageData>, query: seq<char>, opts: SearchOptions, m: SearchMatch)
    ensures m in FindMatches(pages, query, opts) <==>
              && !IsBlank(query)
              && exists k, p :: 0 <= k < |pages|
                   && Accepted(SearchText(pages[k], opts.caseSensitive), SearchQuery(query, opts.caseSensitive),
                               opts.wholeWord, p)
                   && m == Translate(Normalize(RawText(pages[k].chars)).indexMap, pages[k].index, p,
                                     |SearchQuery(query, opts.caseSensitive)|)
  {
    if !IsBlank(query) {
      var q := SearchQuery(query, opts.caseSensitive);
      var chunks := seq(|pages|, k requires 0 <= k < |pages| => PageMatches(pages[k], q, opts));
      FlattenMember(chunks, m);
      forall k | 0 <= k < |pages|
        ensures m in chunks[k] <==>
                  exists p :: Accepted(SearchText(pages[k], opts.caseSensitive), q, opts.wholeWord, p)
                    && m == Translate(Normalize(RawText(pages[k].chars)).indexMap, pages[k].index, p, |q|)
      {
        PageMatchesExact(pages[k], q, opts, m);
      }
    }
  }

  /** For pages numbered in order, matches come out ordered by page and,
      within a page, by strictly increasing `charIndex`. */
  lemma MatchesInReadingOrder(pages: seq<PageData>, query: seq<char>, opts: SearchOptions)
    requires PagesInOrder(pages)
    ensures InReadingOrder(FindMatches(pages, query, opts))
  {
    if !IsBlank(query) {
      var q := SearchQuery(query, opts.caseSensitive);
      var chunks := seq(|pages|, k requires 0 <= k < |pages| => PageMatches(pages[k], q, opts));
      forall k, m: SearchMatch | 0 <= k < |chunks| && m in chunks[k]
        ensures m.pageIndex == pages[k].index
      {
        var i :| 0 <= i < |chunks[k]| && chunks[k][i] == m;
      }
      FlattenInReadingOrder(pages, chunks);
    }
  }

  /** A search over a single page is that page's search. */
  lemma SinglePage(page: PageData, query: seq<char>, opts: SearchOptions)
    requires !IsBlank(query)
    ensures FindMatches([page], query, opts) == PageMatches(page, SearchQuery(query, opts.caseSensitive), opts)
  {
    var q := SearchQuery(query, opts.caseSensitive);
    var chunks := seq(1, k requires 0 <= k < 1 => PageMatches([page][k], q, opts));
    assert chunks == [PageMatches(page, q, opts)];
    assert Flatten(chunks[1..]) == [];
  }

  /** A page scan with a single hit gives a single match. */
  lemma SingleHit(page: PageData, q: seq<char>, opts: SearchOptions, h: nat)
    requires |q| > 0
    requires Hits(SearchText(page, opts.caseSensitive), q, opts.wholeWord, 0) == [h]
    ensures h + |q| <= |Normalize(RawText(page.chars)).indexMap|
    ensures PageMatches(page, q, opts) == [Translate(Normalize(RawText(page.chars)).indexMap, page.index, h, |q|)]
  {
    assert h in Hits(SearchText(page, opts.caseSensitive), q, opts.wholeWord, 0);
  }

  /** Collapsed text without upper-case letters is searched as it stands,
      whether it is the query or a page's text. */
  lemma SearchedAsIs(s: seq<char>, caseSensitive: bool)
    requires Fold(s) == s
    requires Collapsed(s)
    ensures SearchQuery(s, caseSensitive) == s
    ensures Cased(caseSensitive, Normalize(s).text) == s
    ensures forall n :: 0 <= n < |s| ==> Normalize(s).indexMap[n] == n
  {
    CollapsedIsFixed(s);
  }

  /** "foo bar" finds "foo   bar\nbaz" once, from character 0 over 9
      characters: the three-space run counts as one space and the match
      reaches to the end of "bar". */
  lemma CollapseExample(page: PageData, query: seq<char>)
    requires RawText(page.chars) == "foo   bar\nbaz" && query == "foo bar"
    ensures FindMatches([page], query, SearchOptions(false, false)) == [SearchMatch(page.index, 0, 9)]
  {
    var opts := SearchOptions(false, false);
    assert !IsSpace(query[0]);
    SearchedAsIs(query, false);
    CollapseExampleText(RawText(page.chars));
    CollapseExampleHits(SearchText(page, false), query);
    SingleHit(page, query, opts, 0);
    SinglePage(page, query, opts);
  }

  lemma CollapseExampleText(raw: seq<char>)
    requires raw == "foo   bar\nbaz"
    ensures Normalize(raw).indexMap == [0, 1, 2, 3, 6, 7, 8, 9, 10, 11, 12]
    ensures Fold(Normalize(raw).text) == "foo bar baz"
  {
    CollapseExampleFrom0(raw);
    CollapseExampleFold("foo bar baz");
  }

  lemma CollapseExampleFold(text: seq<char>)
    requires text == "foo bar baz"
    ensures Fold(text) == text
  {
  }

  /** The normalisation of "foo   bar\nbaz", one lemma per loop position:
      `CollapseExampleFrom<i>` states the loop's result from raw position
      `i`, and each is built on the one for the next position. */
  lemma CollapseExampleFrom0(raw: seq<char>)
    requires raw == "foo   bar\nbaz"
    ensures NormalizeFrom(raw, 0) == Normalized("foo bar baz", [0, 1, 2, 3, 6, 7, 8, 9, 10, 11, 12])
  {
    CollapseExampleFrom1(raw);
    assert raw[0] == 'f';
    Unfold(raw, 0, 1);
  }

  lemma CollapseExampleFrom1(raw: seq<char>)
    requires raw == "foo   bar\nbaz"
    ensures NormalizeFrom(raw, 1) == Normalized("oo bar baz", [1, 2, 3, 6, 7, 8, 9, 10, 11, 12])
  {
    CollapseExampleFrom2(raw);
    assert raw[1] == 'o';
    Unfold(raw, 1, 2);
  }

  lemma CollapseExampleFrom2(raw: seq<char>)
    requires raw == "foo   bar\nbaz"
    ensures NormalizeFrom(raw, 2) == Normalized("o bar baz", [2, 3, 6, 7, 8, 9, 10, 11, 12])
  {
    CollapseExampleFrom3(raw);
    assert raw[2] == 'o';
    Unfold(raw, 2, 3);
  }

  lemma CollapseExampleFrom3(raw: seq<char>)
    requires raw == "foo   bar\nbaz"
    ensures NormalizeFrom(raw, 3) == Normalized(" bar baz", [3, 6, 7, 8, 9, 10, 11, 12])
  {
    CollapseExampleFrom6(raw);
    assert SkipSpaces(raw, 4) == 6;
  }

  lemma CollapseExampleFrom6(raw: seq<char>)
    requires raw == "foo   bar\nbaz"
    ensures NormalizeFrom(raw, 6) == Normalized("bar baz", [6, 7, 8, 9, 10, 11, 12])
  {
    CollapseExampleFrom6Map(raw);
    CollapseExampleFrom6Text(raw);
  }

  lemma CollapseExampleFrom6Map(raw: seq<char>)
    requires raw == "foo   bar\nbaz"
    ensures NormalizeFrom(raw, 6).indexMap == [6, 7, 8, 9, 10, 11, 12]
  {
    SingleSpacedFrom(raw, 6);
  }

  lemma CollapseExampleFrom6Text(raw: seq<char>)
    requires raw == "foo   bar\nbaz"
    ensures NormalizeFrom(raw, 6).text == "bar baz"
  {
    CollapseExampleFrom6Map(raw);
    NormalizedChars(raw, 6);
    var t := NormalizeFrom(raw, 6).text;
    assert t[0] == 'b' && t[1] == 'a' && t[2] == 'r';
    assert t[3] == Squash('\n');
    assert t[4] == 'b' && t[5] == 'a' && t[6] == 'z';
  }

  lemma CollapseExampleHits(text: seq<char>, q: seq<char>)
    requires text == "foo bar baz" && q == "foo bar"
    ensures Hits(text, q, false, 0) == [0]
  {
    assert Occurs(text, q, 0);
    NotAt(text, q, 1);
    NotAt(text, q, 2);
    NotAt(text, q, 3);
    NotAt(text, q, 4);
    assert IndexOf(text, q, 1) == -1;
  }

  /** With whole-word on, "cat" is found in "catalog cat cats" only as the
      standalone word, at character 8. */
  lemma WholeWordExample(page: PageData, query: seq<char>)
    requires RawText(page.chars) == "catalog cat cats" && query == "cat"
    ensures FindMatches([page], query, SearchOptions(false, true)) == [SearchMatch(page.index, 8, 3)]
  {
    var opts := SearchOptions(false, true);
    var raw := RawText(page.chars);
    CatQuery(query);
    WholeWordExampleText(raw);
    SearchedAsIs(raw, false);
    assert SearchText(page, false) == raw;
    WholeWordExampleHits(raw, query);
    SingleHit(page, query, opts, 8);
    SinglePage(page, query, opts);
  }

  lemma CatQuery(q: seq<char>)
    requires q == "cat"
    ensures !IsBlank(q) && SearchQuery(q, false) == q && SearchQuery(q, true) == q
  {
    assert !IsSpace(q[0]);
    SearchedAsIs(q, false);
    SearchedAsIs(q, true);
  }

  lemma WholeWordExampleText(raw: seq<char>)
    requires raw == "catalog cat cats"
    ensures Fold(raw) == raw && Collapsed(raw)
  {
  }

  lemma WholeWordExampleHits(raw: seq<char>, q: seq<char>)
    requires raw == "catalog cat cats" && q == "cat"
    ensures Hits(raw, q, true, 0) == [8]
  {
    WholeWordExampleIndexOf(raw, q);
    assert !AtWordBoundary(raw, 12, 3);
    assert Hits(raw, q, true, 9) == [];
    assert AtWordBoundary(raw, 8, 3);
    assert Hits(raw, q, true, 1) == [8];
    assert !AtWordBoundary(raw, 0, 3);
  }

  lemma WholeWordExampleIndexOf(raw: seq<char>, q: seq<char>)
    requires raw == "catalog cat cats" && q == "cat"
    ensures IndexOf(raw, q, 0) == 0 && IndexOf(raw, q, 1) == 8
    ensures IndexOf(raw, q, 9) == 12 && IndexOf(raw, q, 13) == -1
  {
    assert Occurs(raw, q, 0);
    WholeWordExampleSkip(raw, q);
    WholeWordExampleLast(raw, q);
  }

  lemma WholeWordExampleSkip(raw: seq<char>, q: seq<char>)
    requires raw == "catalog cat cats" && q == "cat"
    ensures IndexOf(raw, q, 1) == 8
  {
    NotAt(raw, q, 1);
    NotAt(raw, q, 2);
    NotAt(raw, q, 3);
    NotAt(raw, q, 4);
    NotAt(raw, q, 5);
    NotAt(raw, q, 6);
    NotAt(raw, q, 7);
    assert Occurs(raw, q, 8);
  }

  lemma WholeWordExampleLast(raw: seq<char>, q: seq<char>)
    requires raw == "catalog cat cats" && q == "cat"
    ensures IndexOf(raw, q, 9) == 12 && IndexOf(raw, q, 13) == -1
  {
    NotAt(raw, q, 9);
    NotAt(raw, q, 10);
    NotAt(raw, q, 11);
    assert Occurs(raw, q, 12);
    NotAt(raw, q, 13);
  }

  /** With case-sensitivity on, "cat" is found in "Cat cat CAT" only as the
      lower-case word, at character 4. */
  lemma CaseSensitiveExample(page: PageData, query: seq<char>)
    requires RawText(page.chars) == "Cat cat CAT" && query == "cat"
    ensures FindMatches([page], query, SearchOptions(true, false)) == [SearchMatch(page.index, 4, 3)]
  {
    var opts := SearchOptions(true, false);
    var raw := RawText(page.chars);
    CatQuery(query);
    CaseSensitiveExampleText(raw);
    CollapsedIsFixed(raw);
    assert SearchText(page, true) == raw;
    CaseSensitiveExampleHits(raw, query);
    SingleHit(page, query, opts, 4);
    SinglePage(page, query, opts);
  }

  lemma CaseSensitiveExampleText(raw: seq<char>)
    requires raw == "Cat cat CAT"
    ensures Collapsed(raw)
  {
  }

  lemma CaseSensitiveExampleHits(raw: seq<char>, q: seq<char>)
    requires raw == "Cat cat CAT" && q == "cat"
    ensures Hits(raw, q, false, 0) == [4]
  {
    NotAt(raw, q, 0);
    NotAt(raw, q, 1);
    NotAt(raw, q, 2);
    NotAt(raw, q, 3);
    assert Occurs(raw, q, 4);
    assert IndexOf(raw, q, 0) == 4;
    NotAt(raw, q, 5);
    NotAt(raw, q, 6);
    NotAt(raw, q, 7);
    NotAt(raw, q, 8);
    assert IndexOf(raw, q, 5) == -1;
  }
}
