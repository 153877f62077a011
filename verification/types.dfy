/** The records shared by the search, the highlight overlay and the viewer
    (`src/types.ts`), and the concatenation of per-page results that every
    search performs with its `for (const page of pages)` loop. */
module Types {

  datatype Option<+T> = None | Some(value: T)

  /** One extracted character with its box in PDF point space (origin
      bottom-left, Y up). A character whose box could not be read carries
      the zero box. `ch` stands for one UTF-16 unit of the page text. */
  datatype CharBox = CharBox(ch: char, left: real, right: real, bottom: real, top: real)

  /** A rendered page: the bitmap is left out, its size and the
      characters are kept. */
  datatype PageData = PageData(
    index: int,
    width: int,
    height: int,
    originalWidth: real,
    originalHeight: real,
    chars: seq<CharBox>,
    scale: real)

  /** A run `[charIndex, charIndex + charCount)` of a page's characters. */
  datatype SearchMatch = SearchMatch(pageIndex: int, charIndex: int, charCount: int)

  datatype SearchOptions = SearchOptions(caseSensitive: bool, wholeWord: bool)

  /** The page text, each box's `char` joined in order: one text position per
      character box, so text index `i` is box index `i`. */
  function RawText(chars: seq<CharBox>): (s: seq<char>)
    ensures |s| == |chars|
    ensures forall i :: 0 <= i < |chars| ==> s[i] == chars[i].ch
  {
    seq(|chars|, i requires 0 <= i < |chars| => chars[i].ch)
  }

  /** Appends the per-page result lists in page order. */
  function Flatten(chunks: seq<seq<SearchMatch>>): seq<SearchMatch>
  {
    if |chunks| == 0 then [] else chunks[0] + Flatten(chunks[1..])
  }

  /** `a` comes strictly before `b` in reading order. */
  predicate Before(a: SearchMatch, b: SearchMatch)
  {
    a.pageIndex < b.pageIndex || (a.pageIndex == b.pageIndex && a.charIndex < b.charIndex)
  }

  /** Strictly ordered by page, then by character index. */
  predicate InReadingOrder(ms: seq<SearchMatch>)
  {
    forall i, j :: 0 <= i < j < |ms| ==> Before(ms[i], ms[j])
  }

  /** Page indices strictly increase along the page list, as they do for
      pages numbered in document order. */
  predicate PagesInOrder(pages: seq<PageData>)
  {
    forall a, b :: 0 <= a < b < |pages| ==> pages[a].index < pages[b].index
  }

  lemma {:induction false} FlattenMember(chunks: seq<seq<SearchMatch>>, m: SearchMatch)
    ensures m in Flatten(chunks) <==> exists k :: 0 <= k < |chunks| && m in chunks[k]
    decreases |chunks|
  {
    if |chunks| > 0 {
      FlattenMember(chunks[1..], m);
      if m in Flatten(chunks[1..]) {
        var k :| 0 <= k < |chunks[1..]| && m in chunks[1..][k];
        assert m in chunks[k + 1];
      }
      if exists k :: 0 <= k < |chunks| && m in chunks[k] {
        var k :| 0 <= k < |chunks| && m in chunks[k];
        if k > 0 {
          assert m in chunks[1..][k - 1];
        }
      }
    }
  }

  /** Per-page lists that are each ordered, tagged with their page's index,
      over pages in order, flatten to one list in reading order. */
  lemma {:induction false} FlattenInReadingOrder(pages: seq<PageData>, chunks: seq<seq<SearchMatch>>)
    requires |chunks| == |pages|
    requires PagesInOrder(pages)
    requires forall k :: 0 <= k < |chunks| ==> InReadingOrder(chunks[k])
    requires forall k, m :: 0 <= k < |chunks| && m in chunks[k] ==> m.pageIndex == pages[k].index
    ensures InReadingOrder(Flatten(chunks))
    decreases |chunks|
  {
    if |chunks| > 0 {
      var rest := Flatten(chunks[1..]);
      FlattenInReadingOrder(pages[1..], chunks[1..]);
      forall m | m in rest
        ensures pages[0].index < m.pageIndex
      {
        FlattenMember(chunks[1..], m);
        var k :| 0 <= k < |chunks[1..]| && m in chunks[1..][k];
        assert m in chunks[k + 1];
      }
      var r := chunks[0] + rest;
      forall i, j | 0 <= i < j < |r|
        ensures Before(r[i], r[j])
      {
        if j < |chunks[0]| {
        } else if i >= |chunks[0]| {
          assert r[i] == rest[i - |chunks[0]|] && r[j] == rest[j - |chunks[0]|];
        } else {
          assert r[i] in chunks[0];
          assert r[j] == rest[j - |chunks[0]|];
          assert r[j] in rest;
        }
      }
    }
  }
}
