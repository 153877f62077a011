/** The range planning of `splitPdf` (`src/lib/services/splitPdf.ts`):
    split points, sorted ascending, become half-open page ranges that
    partition the document's pages, and each range becomes the list of
    page indices its segment copies. */
module SplitPlan {

  /** The half-open page range `[start, end)`. */
  datatype Range = Range(start: int, end: int)

  predicate Sorted(s: seq<int>)
  {
    forall i, j :: 0 <= i < j < |s| ==> s[i] <= s[j]
  }

  /** Inserts `x` into a sorted list. */
  function Insert(x: int, s: seq<int>): (r: seq<int>)
    requires Sorted(s)
    ensures Sorted(r)
    ensures multiset(r) == multiset(s) + multiset{x}
  {
    if |s| == 0 then [x]
    else if x <= s[0] then
      ConsSorted(x, s);
      [x] + s
    else
      var rest := Insert(x, s[1..]);
      HeadBound(x, s, rest);
      ConsSorted(s[0], rest);
      assert s == [s[0]] + s[1..];
      [s[0]] + rest
  }

  /** A point no larger than any of a sorted list heads it sorted. */
  lemma ConsSorted(h: int, s: seq<int>)
    requires Sorted(s)
    requires forall k :: 0 <= k < |s| ==> h <= s[k]
    ensures Sorted([h] + s)
  {
  }

  /** The head of a sorted list bounds the rest of it with a larger point
      added, in whatever order. */
  lemma HeadBound(x: int, s: seq<int>, rest: seq<int>)
    requires Sorted(s) && |s| > 0 && s[0] < x
    requires multiset(rest) == multiset(s[1..]) + multiset{x}
    ensures forall k :: 0 <= k < |rest| ==> s[0] <= rest[k]
  {
    forall k | 0 <= k < |rest|
      ensures s[0] <= rest[k]
    {
      assert rest[k] in multiset(rest);
      if rest[k] != x {
        assert rest[k] in multiset(s[1..]);
        var j :| 0 <= j < |s[1..]| && s[1..][j] == rest[k];
        assert s[j + 1] == rest[k];
      }
    }
  }

  /** The numeric `sort` of a copy of the split points: the same points,
      in ascending order. */
  function SortAscending(s: seq<int>): (r: seq<int>)
    ensures Sorted(r)
    ensures multiset(r) == multiset(s)
  {
    if |s| == 0 then []
    else
      assert s == [s[0]] + s[1..];
      Insert(s[0], SortAscending(s[1..]))
  }

  /** The ranges lie end to end, each non-empty, the first starting at
      `a` and the last ending at `b`. */
  predicate Tiles(rs: seq<Range>, a: int, b: int)
  {
    && (|rs| == 0 ==> a == b)
    && (|rs| > 0 ==> rs[0].start == a && rs[|rs| - 1].end == b)
    && (forall k :: 0 <= k < |rs| ==> rs[k].start < rs[k].end)
    && (forall k :: 0 < k < |rs| ==> rs[k - 1].end == rs[k].start)
  }

  /** `e` ends one of the ranges. */
  predicate IsEnd(rs: seq<Range>, e: int)
  {
    exists k :: 0 <= k < |rs| && rs[k].end == e
  }

  /** The result of the `for (const sp of sorted)` loop: the ranges pushed
      and the final value of `start`. */
  datatype Cut = Cut(ranges: seq<Range>, last: int)

  /** The loop from cursor `start` over the remaining points: a point `sp`
      closes the range `[start, sp + 1)` when `sp + 1` lies beyond `start`
      and within the document, and is skipped otherwise. */
  function CutRanges(sorted: seq<int>, start: int, totalPages: int): (c: Cut)
    requires start <= totalPages
    ensures start <= c.last <= totalPages
    ensures Tiles(c.ranges, start, c.last)
    decreases |sorted|
  {
    if |sorted| == 0 then Cut([], start)
    else
      var end := sorted[0] + 1;
      if end > start && end <= totalPages then
        var rest := CutRanges(sorted[1..], end, totalPages);
        Cut([Range(start, end)] + rest.ranges, rest.last)
      else CutRanges(sorted[1..], start, totalPages)
  }

  /** The ranges `splitPdf` builds for a document of `totalPages` pages:
      the loop over the sorted points, then the final segment up to the
      end when pages remain. */
  function PlanRanges(splitPoints: seq<int>, totalPages: nat): (rs: seq<Range>)
    ensures Tiles(rs, 0, totalPages)
  {
    var c := CutRanges(SortAscending(splitPoints), 0, totalPages);
    if c.last < totalPages then
      TilesAppend(c.ranges, 0, c.last, totalPages);
      c.ranges + [Range(c.last, totalPages)]
    else c.ranges
  }

  /** A non-empty range starting where tiled ranges end extends the tiling. */
  lemma TilesAppend(rs: seq<Range>, a: int, m: int, b: int)
    requires Tiles(rs, a, m) && m < b
    ensures Tiles(rs + [Range(m, b)], a, b)
  {
    var r := rs + [Range(m, b)];
    forall k | 0 < k < |r|
      ensures r[k - 1].end == r[k].start
    {
      if k < |rs| {
        assert r[k - 1] == rs[k - 1] && r[k] == rs[k];
      }
    }
  }

  /** Tiled ranges span a non-empty interval unless there are none. */
  lemma {:induction false} TilesSpan(rs: seq<Range>, a: int, b: int)
    requires Tiles(rs, a, b)
    ensures a <= b
    ensures |rs| > 0 ==> a < b
    decreases |rs|
  {
    if |rs| > 0 {
      TilesSpan(rs[1..], rs[0].end, b);
    }
  }

  /** The page indices handed to `copyPages` for one range: each index
      from the range's start up to, not including, its end. */
  function PageIndices(r: Range): (ix: seq<int>)
    requires r.start <= r.end
  {
    seq(r.end - r.start, i requires 0 <= i < r.end - r.start => r.start + i)
  }

  /** The page-index list of every segment, in order: one per range. */
  function Segments(rs: seq<Range>): (segs: seq<seq<int>>)
    requires forall k :: 0 <= k < |rs| ==> rs[k].start <= rs[k].end
    ensures |segs| == |rs|
  {
    seq(|rs|, k requires 0 <= k < |rs| => PageIndices(rs[k]))
  }

  function Concat(segs: seq<seq<int>>): seq<int>
  {
    if |segs| == 0 then [] else segs[0] + Concat(segs[1..])
  }

  /** An empty document gives no ranges, and so no segments. */
  lemma EmptyDocument(splitPoints: seq<int>)
    ensures PlanRanges(splitPoints, 0) == []
  {
    TilesSpan(PlanRanges(splitPoints, 0), 0, 0);
  }

  /** The ends of the ranges the loop pushes are exactly the points `sp`
      with `sp + 1` beyond the starting cursor and within the document. */
  lemma CutEnds(sorted: seq<int>, start: int, totalPages: int, e: int)
    requires Sorted(sorted)
    requires start <= totalPages
    ensures IsEnd(CutRanges(sorted, start, totalPages).ranges, e) <==>
              start < e <= totalPages && e - 1 in sorted
  {
    if IsEnd(CutRanges(sorted, start, totalPages).ranges, e) {
      CutEndsSound(sorted, start, totalPages, e);
    }
    if start < e <= totalPages && e - 1 in sorted {
      CutEndsComplete(sorted, start, totalPages, e);
    }
  }

  /** Every pushed range ends one past a point, beyond the start and
      within the document. */
  lemma {:induction false} CutEndsSound(sorted: seq<int>, start: int, totalPages: int, e: int)
    requires start <= totalPages
    requires IsEnd(CutRanges(sorted, start, totalPages).ranges, e)
    ensures start < e <= totalPages && e - 1 in sorted
    decreases |sorted|
  {
    var end := sorted[0] + 1;
    var tail := sorted[1..];
    assert sorted == [sorted[0]] + tail;
    if end > start && end <= totalPages {
      var rest := CutRanges(tail, end, totalPages);
      var rs := [Range(start, end)] + rest.ranges;
      var k :| 0 <= k < |rs| && rs[k].end == e;
      if k > 0 {
        assert rest.ranges[k - 1].end == e;
        CutEndsSound(tail, end, totalPages, e);
      }
    } else {
      CutEndsSound(tail, start, totalPages, e);
    }
  }

  /** Every point of a sorted list whose successor lies beyond the start
      and within the document ends a pushed range. */
  lemma {:induction false} CutEndsComplete(sorted: seq<int>, start: int, totalPages: int, e: int)
    requires Sorted(sorted)
    requires start <= totalPages
    requires start < e <= totalPages && e - 1 in sorted
    ensures IsEnd(CutRanges(sorted, start, totalPages).ranges, e)
    decreases |sorted|
  {
    var end := sorted[0] + 1;
    var tail := sorted[1..];
    SortedTail(sorted);
    if end > start && end <= totalPages {
      var rest := CutRanges(tail, end, totalPages);
      var rs := [Range(start, end)] + rest.ranges;
      if e == end {
        assert rs[0].end == e;
      } else {
        assert e - 1 in tail;
        CutEndsComplete(tail, end, totalPages, e);
        var k :| 0 <= k < |rest.ranges| && rest.ranges[k].end == e;
        assert rs[k + 1].end == e;
      }
    } else {
      assert e - 1 != sorted[0];
      assert e - 1 in tail;
      CutEndsComplete(tail, start, totalPages, e);
    }
  }

  /** Dropping the head of a sorted list leaves a sorted list of points no
      smaller than the head. */
  lemma SortedTail(s: seq<int>)
    requires Sorted(s) && |s| > 0
    ensures Sorted(s[1..])
    ensures forall x :: x in s[1..] ==> s[0] <= x
    ensures forall x :: x in s <==> x == s[0] || x in s[1..]
  {
    assert s == [s[0]] + s[1..];
  }

  /** The final cursor is the start, or one past a split point. */
  lemma {:induction false} CutLast(sorted: seq<int>, start: int, totalPages: int)
    requires start <= totalPages
    ensures CutRanges(sorted, start, totalPages).last == start
              || CutRanges(sorted, start, totalPages).last - 1 in sorted
    decreases |sorted|
  {
    if |sorted| > 0 {
      assert sorted == [sorted[0]] + sorted[1..];
      var end := sorted[0] + 1;
      if end > start && end <= totalPages {
        CutLast(sorted[1..], end, totalPages);
      } else {
        CutLast(sorted[1..], start, totalPages);
      }
    }
  }

  /** The final cursor is at least one past every point that lies within
      the document. */
  lemma {:induction false} CutReaches(sorted: seq<int>, start: int, totalPages: int, sp: int)
    requires Sorted(sorted)
    requires start <= totalPages
    requires sp in sorted && sp + 1 <= totalPages
    ensures sp + 1 <= CutRanges(sorted, start, totalPages).last
    decreases |sorted|
  {
    SortedTail(sorted);
    var end := sorted[0] + 1;
    if sp != sorted[0] {
      if end > start && end <= totalPages {
        CutReaches(sorted[1..], end, totalPages, sp);
      } else {
        CutReaches(sorted[1..], start, totalPages, sp);
      }
    }
  }

  /** Split point handling in one statement: a page count `e` ends a
      range exactly when it lies in `(0, totalPages]` and is either the
      document's end or one past a split point. Points at or before an
      earlier cut (duplicates, negatives) and points past the last page
      are thereby ignored. */
  lemma PlanEnds(splitPoints: seq<int>, totalPages: nat, e: int)
    ensures IsEnd(PlanRanges(splitPoints, totalPages), e) <==>
              0 < e <= totalPages && (e == totalPages || e - 1 in splitPoints)
  {
    var sorted := SortAscending(splitPoints);
    SortKeepsMembers(splitPoints);
    CutEnds(sorted, 0, totalPages, e);
    CutLast(sorted, 0, totalPages);
    var c := CutRanges(sorted, 0, totalPages);
    if c.last < totalPages {
      AppendEnds(c.ranges, Range(c.last, totalPages), e);
    } else if totalPages > 0 {
      assert c.ranges[|c.ranges| - 1].end == totalPages;
    }
  }

  /** Sorting keeps exactly the same points. */
  lemma SortKeepsMembers(s: seq<int>)
    ensures forall x :: x in SortAscending(s) <==> x in s
  {
    var r := SortAscending(s);
    forall x
      ensures x in r <==> x in s
    {
      assert x in r <==> x in multiset(r);
      assert x in s <==> x in multiset(s);
    }
  }

  /** The ends of ranges with one more appended. */
  lemma AppendEnds(rs: seq<Range>, last: Range, e: int)
    ensures IsEnd(rs + [last], e) <==> IsEnd(rs, e) || last.end == e
  {
    var r := rs + [last];
    if IsEnd(rs, e) {
      var k :| 0 <= k < |rs| && rs[k].end == e;
      assert r[k].end == e;
    }
    if IsEnd(r, e) && last.end != e {
      var k :| 0 <= k < |r| && r[k].end == e;
      assert rs[k].end == e;
    }
    assert r[|rs|] == last;
  }

  /** Ranges that tile `[a, b)` give page lists that, read in order, list
      every page of `[a, b)` once, in ascending order. */
  lemma {:induction false} TilesConcat(rs: seq<Range>, a: int, b: int)
    requires Tiles(rs, a, b)
    ensures a <= b
    ensures Concat(Segments(rs)) == seq(b - a, i requires 0 <= i < b - a => a + i)
    decreases |rs|
  {
    if |rs| > 0 {
      var m := rs[0].end;
      TilesConcat(rs[1..], m, b);
      assert Segments(rs)[1..] == Segments(rs[1..]);
      IntervalSplit(a, m, b);
    }
  }

  /** `[a, b)` is `[a, m)` followed by `[m, b)`. */
  lemma IntervalSplit(a: int, m: int, b: int)
    requires a <= m <= b
    ensures seq(b - a, i requires 0 <= i < b - a => a + i)
         == seq(m - a, i requires 0 <= i < m - a => a + i) + seq(b - m, i requires 0 <= i < b - m => m + i)
  {
  }

  /** The segments copy every page of the document exactly once, in
      order: concatenated, their page lists are `0, 1, …, totalPages - 1`. */
  lemma SegmentsPartition(splitPoints: seq<int>, totalPages: nat)
    ensures Concat(Segments(PlanRanges(splitPoints, totalPages)))
         == seq(totalPages, i requires 0 <= i < totalPages => i)
  {
    var rs := PlanRanges(splitPoints, totalPages);
    TilesConcat(rs, 0, totalPages);
    assert seq(totalPages - 0, i requires 0 <= i < totalPages - 0 => 0 + i)
        == seq(totalPages, i requires 0 <= i < totalPages => i);
  }

  /** "Split after pages 2 and 5" of a 10-page document gives the ranges
      `[0, 3)`, `[3, 6)` and `[6, 10)`. */
  lemma PlanExample()
    ensures PlanRanges([5, 2], 10) == [Range(0, 3), Range(3, 6), Range(6, 10)]
  {
    SortExample();
    CutExample([2, 5]);
  }

  lemma SortExample()
    ensures SortAscending([5, 2]) == [2, 5]
  {
    assert SortAscending([2]) == [2];
  }

  lemma CutExample(sorted: seq<int>)
    requires sorted == [2, 5]
    ensures CutRanges(sorted, 0, 10) == Cut([Range(0, 3), Range(3, 6)], 6)
  {
    assert sorted[1..] == [5];
    assert CutRanges([5], 3, 10) == Cut([Range(3, 6)], 6);
  }
}
