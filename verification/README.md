# pdfwasm search and highlight core, modelled in Dafny

This project models the positioned-text search engine of the pdfwasm PDF
viewer, together with the two pieces of pure logic around it: the
highlight geometry of a page and the page-range planning of the PDF
splitter. The model is functional throughout. Records are datatypes,
collections are sequences, every loop is a recursive function, and the
properties are contracts and lemmas.

- `Types` (types.dfy) holds the shared records of `src/types.ts`: a
  character box, a page, a match and the search options. It also holds the
  per-page concatenation every search performs, and reading order.
- `CharClass` (charclass.dfy) holds ECMAScript `\s` (the set `trim` also
  strips), ASCII `\w`, and lower-casing as a per-character fold.
- `Scan` (scan.dfy) is the `indexOf` loop shared by both `findMatches`. It
  moves the cursor one position past every hit, accepted or rejected, and
  can apply the whole-word test.
- `Normalization` (normalize.dfy) collapses each whitespace run of a page
  to one space and builds the index map back to raw characters. It also
  covers the `replace(/\s+/g, " ")` collapse of the query.
- `WsSearch` (wssearch.dfy) is the current `findMatches`. It searches the
  normalised text and translates hits back through the index map.
- `RawSearch` (rawsearch.dfy) is the older `findMatches`, which scans the
  raw page text.
- `HookSearch` (hooksearch.dfy) is the search inside `useSearch`'s
  `useMemo`.
- `Agreement` (agreement.dfy) proves that the new search equals the old
  one on pages and queries without whitespace.
- `Highlight` (highlight.dfy) holds `pdfToCanvas`, its inverse, and the
  overlay effect as an ordered list of draw commands.
- `SplitPlan` (splitplan.dfy) turns split points into page ranges and
  per-segment page lists.

Notes on the code:

- No component keeps a current-match cursor with next/prev. The page only
  receives the `charIndex` of the active match. No navigator is modelled.
- The scan reports overlapping occurrences, because the cursor moves by one
  after every hit.
- The whole-word test uses `/\w/`, which means ASCII letters, digits and
  underscore.
- The query is folded before it is collapsed, while the page text is
  normalised before it is folded. `Normalization.FoldCommutes` shows that
  the two orders agree.
- No normalised index is cached. It is rebuilt on every search.

## Model

| member | source | states |
|---|---|---|
| CharClass.FoldChar | src/lib/services/search.ts:41 | lower-casing keeps whitespace whitespace and word characters word characters, leaves no upper-case ASCII letter, and changes only A-Z, each to the letter 32 code points up |
| Scan.IndexOf | src/lib/services/search.ts:45 | `indexOf` from a cursor returns either -1 with no occurrence at or after the cursor, or the first occurrence at or after it |
| Scan.Hits | src/lib/services/search.ts:43-69 | every reported position is at or after the cursor and is an occurrence that passes the whole-word test when that test is on; positions strictly increase, so the loop ends |
| Scan.HitsComplete | src/lib/services/search.ts:43-69 | a position is reported exactly when it is at or after the cursor and accepted; overlapping occurrences and positions inside rejected hits are not skipped |
| Scan.OverlapExample | src/lib/services/search.ts:68 | "aa" in "aaaa" is reported at 0, 1 and 2 |
| Normalization.SkipSpaces | src/lib/services/search.ts:33 | the inner loop stops at the first non-whitespace character or the end, and everything it skipped is whitespace |
| Normalization.NormalizeFrom | src/lib/services/search.ts:26-39 | every loop turn appends one character and one index, so the text and the index map have equal length; they are empty exactly when no raw text remains, start at the loop's position, are no longer than the raw text, and the map holds strictly increasing valid raw indices |
| Normalization.NormalizedChars | src/lib/services/search.ts:30-37 | every normalised character is the raw character its map entry points at, with whitespace turned into ' ' |
| Normalization.IndexMapIsUnits | src/lib/services/search.ts:30-37 | a raw index is in the map exactly when it is not whitespace or it starts a whitespace run, so each maximal run yields exactly one entry, its first index |
| Normalization.CollapsedFrom | src/lib/services/search.ts:30-37 | normalised text has ' ' as its only whitespace and never two spaces in a row |
| Normalization.Collapse | src/lib/services/search.ts:19 | collapsing the query never lengthens it and leaves it empty only when it was empty |
| Normalization.CollapseIdempotent | src/lib/services/search.ts:19 | collapsing an already collapsed query changes nothing |
| Normalization.SingleSpaced | src/lib/services/search.ts:26-39 | text with no two adjacent whitespace characters keeps its length, its map is the identity, and only its whitespace changes, to ' ' |
| Normalization.NoSpaceIdentity | src/lib/services/search.ts:26-39 | text without whitespace is its own normal form with the identity map |
| Normalization.FoldCommutes | src/lib/services/search.ts:17-41 | folding before or after normalising gives the same index map and the same text, so the two orders used for query and page agree |
| WsSearch.SearchQuery | src/lib/services/search.ts:17-19 | the prepared query is no longer than the query and is empty only when the query is |
| WsSearch.TranslateHits | src/lib/services/search.ts:60-67 | translated matches lie inside the raw text, cover at least as many characters as the collapsed query, and start at strictly increasing characters |
| WsSearch.PageMatches | src/lib/services/search.ts:21-70 | every match of a page carries that page's index, lies inside the page, covers at least the collapsed query's length, and the page's matches are in increasing order |
| WsSearch.FindMatches | src/lib/services/search.ts:13 | an empty or whitespace-only query gives no matches |
| WsSearch.PageMatchesExact | src/lib/services/search.ts:43-67 | a page's matches are exactly the translations of the accepted positions of the prepared query in the searched text |
| WsSearch.MatchesWithinPages | src/lib/services/search.ts:60-67 | every match names a page of the input and lies inside it with at least one character |
| WsSearch.MatchesExact | src/lib/services/search.ts:13-73 | a match is reported exactly when the query is not blank and the match is the translation, through that page's index map, of an accepted position of the prepared query on some page |
| WsSearch.MatchesInReadingOrder | src/lib/services/search.ts:21-70 | for pages in index order, matches are ordered by page, then by strictly increasing charIndex |
| WsSearch.CollapseExample | src/lib/services/search.ts:19-39 | "foo bar" in "foo   bar\nbaz" is one match, from character 0 over 9 characters |
| WsSearch.WholeWordExample | src/lib/services/search.ts:48-57 | with whole-word on, "cat" in "catalog cat cats" is one match, at character 8 |
| WsSearch.CaseSensitiveExample | src/lib/services/search.ts:41 | with case-sensitivity on, "cat" in "Cat cat CAT" is one match, at character 4 |
| RawSearch.SearchText | src/services/search.ts:16-17 | the searched text has one position per character box |
| RawSearch.PageMatches | src/services/search.ts:19-38 | every match carries the page's index and the query's length, and the searched text at the match equals the prepared query; matches are in increasing order |
| RawSearch.FindMatches | src/services/search.ts:9 | an empty or whitespace-only query gives no matches |
| RawSearch.PageMatchesExact | src/services/search.ts:19-38 | a page's matches are exactly its accepted positions, each covering the query's length |
| RawSearch.MatchesExact | src/services/search.ts:8-42 | a match is reported exactly when the query is not blank, the match covers query.length characters, and it is an accepted occurrence of the query, folded as the text is, on a page with its index |
| RawSearch.MatchesInReadingOrder | src/services/search.ts:15-39 | for pages in index order, matches are ordered by page, then by strictly increasing charIndex |
| RawSearch.CaseIgnored | src/services/search.ts:13-17 | without case-sensitivity, the lower-cased query finds the same matches as the query |
| HookSearch.HookHits | src/hooks/useSearch.ts:16-26 | every reported position is an occurrence at or after the cursor, and positions strictly increase, so the loop ends |
| HookSearch.HookPage | src/hooks/useSearch.ts:12-27 | every match of a page carries the page's index and the query's length and is an occurrence in the lower-cased text |
| HookSearch.UseSearch | src/hooks/useSearch.ts:7 | an empty or whitespace-only query gives no matches |
| HookSearch.HookHitsAreHits | src/hooks/useSearch.ts:16-26 | the extra `startIdx < length` guard changes nothing: the hook's loop reports the same positions as the plain scan |
| HookSearch.UseSearchIsFindMatches | src/hooks/useSearch.ts:5-30 | the hook's result equals the older findMatches with both options off |
| Agreement.PageAgrees | src/lib/services/search.ts:21-69 | on a whitespace-free page, the new page scan gives the same matches as the old one |
| Agreement.FindMatchesAgree | src/lib/services/search.ts:8-73 | for whitespace-free pages and query, the new findMatches equals the old one |
| Highlight.PdfRoundTrip | src/components/PdfPage.tsx:23-37 | mapping a box to the canvas and back gives the box, for any non-zero scale |
| Highlight.CanvasRoundTrip | src/components/PdfPage.tsx:23-37 | mapping a canvas rectangle to PDF space and back gives the rectangle |
| Highlight.YFlip | src/components/PdfPage.tsx:33 | a box reaching the page top lands at y = 0, and one on the page bottom reaches the canvas bottom |
| Highlight.VisibleIffExtent | src/components/PdfPage.tsx:79 | at a positive scale, a glyph's rectangle is drawn exactly when its box has positive width and height |
| Highlight.PlaceholderNotDrawn | src/components/PdfPage.tsx:79 | the zero box gives a zero-size rectangle, which is never drawn |
| Highlight.CanvasExample | src/components/PdfPage.tsx:31-36 | the box (10, 20, 5, 15) on a 100-point page at scale 2 is the rectangle (20, 170, 20, 20) |
| Highlight.DrawFrom | src/components/PdfPage.tsx:68-80 | the glyph loop issues only fills in the match's colour, at most one per index |
| Highlight.DrawFromExact | src/components/PdfPage.tsx:66-81 | a match fills exactly the rectangles of the characters of its run that exist on the page and are visible |
| Highlight.FindByCharIndex | src/components/PdfPage.tsx:90 | `find` returns the first match starting at the index, and nothing exactly when none does |
| Highlight.Passives | src/components/PdfPage.tsx:84-88 | the first loop issues only passive fills |
| Highlight.ActivePart | src/components/PdfPage.tsx:89-92 | the active part issues only active fills, and nothing when the active index is negative |
| Highlight.Overlay | src/components/PdfPage.tsx:62-92 | the overlay first clears the canvas and then only fills; with no matches it only clears; with a negative active index it has no active fill; every passive fill precedes every active fill |
| Highlight.PassivesExact | src/components/PdfPage.tsx:84-88 | the passive fills are exactly the drawn glyphs of the matches whose charIndex is not the active one |
| Highlight.OverlayExact | src/components/PdfPage.tsx:84-92 | the overlay's passive fills come from the non-active matches, and its active fills come from the first match at the active index, only when that index is non-negative |
| SplitPlan.SortAscending | src/lib/services/splitPdf.ts:17 | the sorted split points are ascending and a permutation of the input |
| SplitPlan.CutRanges | src/lib/services/splitPdf.ts:20-28 | the loop's ranges lie end to end from the start cursor to the final cursor, each non-empty, and the final cursor stays within the document |
| SplitPlan.CutEnds | src/lib/services/splitPdf.ts:22-28 | a range ends at e exactly when e is beyond the start cursor, within the document, and one past a split point |
| SplitPlan.CutLast | src/lib/services/splitPdf.ts:22-28 | the final cursor is 0 or one past a split point |
| SplitPlan.CutReaches | src/lib/services/splitPdf.ts:22-28 | the final cursor is at least one past every split point inside the document |
| SplitPlan.PlanRanges | src/lib/services/splitPdf.ts:17-32 | the ranges start at 0, lie end to end, are each non-empty, and end at totalPages |
| SplitPlan.EmptyDocument | src/lib/services/splitPdf.ts:30-32 | a document of no pages gives no ranges |
| SplitPlan.PlanEnds | src/lib/services/splitPdf.ts:17-32 | e ends a range exactly when 0 < e <= totalPages and e is totalPages or one past a split point, so duplicate, covered and out-of-range points are ignored |
| SplitPlan.Segments | src/lib/services/splitPdf.ts:35-40 | there is one page list per range |
| SplitPlan.SegmentsPartition | src/lib/services/splitPdf.ts:35-40 | the segments' page lists, in order, are 0, 1, ..., totalPages - 1, so every page is copied once and in order |
| SplitPlan.PlanExample | src/lib/services/splitPdf.ts:6-7 | split points [5, 2] on a 10-page document give [0, 3), [3, 6) and [6, 10) |

## Left out

- Text extraction is not part of this model: src/lib/services/charBoxes.ts,
  usePdfDocument and the PDFium module are foreign Wasm calls. Their
  guarantee is taken as given: one character box per text position, with
  the zero box where a box could not be read.
- Case folding covers ASCII A-Z only, and each character box holds one
  character. JavaScript's `toLowerCase` also maps other scripts, and some
  mappings change a string's length. Surrogate pairs take two positions.
  Both would break the alignment between text positions and boxes that
  every search relies on. The model assumes that alignment rather than
  reproducing the misalignment.
- Scan.IndexOf requires a non-empty pattern. Every caller passes a
  non-blank query, so JavaScript's result for an empty pattern is never
  used.
- Coordinates are exact reals, not IEEE-754 doubles. Rounding in
  `pdfToCanvas` is not modelled.
- The canvas itself is not modelled: the missing-canvas and missing-context
  early returns, setting the canvas size, `putImageData` of the bitmap,
  and the React effect scheduling. The overlay is the list of commands it
  would issue.
- Highlight.Colour stands for the two fill-style strings. The strings are
  not modelled as text.
- Split points are integers. JavaScript numbers with fractions, and NaN,
  are not modelled.
- `PDFDocument.load`, `copyPages`, `addPage` and `save` are pdf-lib I/O,
  and `downloadSplitPdfs` is a DOM side effect. The model stops at the
  ranges and the page-index lists handed to `copyPages`.
- The server, the auth stores, the API client, the UI components and the
  configuration files are outside the search core.
- No next/prev match navigator exists in the code, so none is modelled.
