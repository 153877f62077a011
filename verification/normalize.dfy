/** The whitespace normalisation of `src/lib/services/search.ts`: each
    maximal whitespace run of a page's text becomes one ' ', and an index
    map records, for every normalised position, the raw character it came
    from (the first character of the run for a collapsed run). The same
    collapse, without the map, is what the query's `replace` does to it. */
module Normalization {
  import opened CharClass
  import Scan

  datatype Normalized = Normalized(text: seq<char>, indexMap: seq<nat>)

  /** Raw index `i` gives rise to a normalised character: it is not
      whitespace, or it opens a whitespace run. */
  predicate StartsUnit(raw: seq<char>, i: int)
    requires 0 <= i < |raw|
  {
    !IsSpace(raw[i]) || i == 0 || !IsSpace(raw[i - 1])
  }

  /** The inner loop of the normalisation: from `i`, skip whitespace until a
      non-whitespace character or the end of the raw text. */
  function SkipSpaces(raw: seq<char>, i: nat): (j: nat)
    requires i <= |raw|
    ensures i <= j <= |raw|
    ensures j < |raw| ==> !IsSpace(raw[j])
    ensures forall k :: i <= k < j ==> IsSpace(raw[k])
    decreases |raw| - i
  {
    if i < |raw| && IsSpace(raw[i]) then SkipSpaces(raw, i + 1) else i
  }

  /** What a raw character becomes in the normalised text. */
  function Squash(c: char): char
  {
    if IsSpace(c) then ' ' else c
  }

  /** The outer loop from raw position `i` onwards. */
  function NormalizeFrom(raw: seq<char>, i: nat): (r: Normalized)
    requires i <= |raw|
    ensures |r.text| == |r.indexMap|
    ensures (|r.indexMap| > 0) <==> (i < |raw|)
    ensures |r.indexMap| > 0 ==> r.indexMap[0] == i
    ensures |r.indexMap| <= |raw| - i
    ensures forall n :: 0 <= n < |r.indexMap| ==> i <= r.indexMap[n] < |raw|
    ensures forall n :: 0 < n < |r.indexMap| ==> r.indexMap[n - 1] < r.indexMap[n]
    decreases |raw| - i
  {
    if i == |raw| then Normalized([], [])
    else if IsSpace(raw[i]) then
      var rest := NormalizeFrom(raw, SkipSpaces(raw, i + 1));
      Normalized([' '] + rest.text, [i] + rest.indexMap)
    else
      var rest := NormalizeFrom(raw, i + 1);
      Normalized([raw[i]] + rest.text, [i] + rest.indexMap)
  }

  /** Every normalised character is the raw character its index-map entry
      points at, whitespace turned into ' '. */
  lemma {:induction false} NormalizedChars(raw: seq<char>, i: nat)
    requires i <= |raw|
    ensures forall n :: 0 <= n < |NormalizeFrom(raw, i).text| ==>
              NormalizeFrom(raw, i).text[n] == Squash(raw[NormalizeFrom(raw, i).indexMap[n]])
    decreases |raw| - i
  {
    if i < |raw| {
      var j := if IsSpace(raw[i]) then SkipSpaces(raw, i + 1) else i + 1;
      NormalizedChars(raw, j);
      var r := NormalizeFrom(raw, i);
      var rest := NormalizeFrom(raw, j);
      assert r.text == [Squash(raw[i])] + rest.text;
      assert r.indexMap == [i] + rest.indexMap;
      forall n | 0 < n < |r.text|
        ensures r.text[n] == Squash(raw[r.indexMap[n]])
      {
        assert r.text[n] == rest.text[n - 1] && r.indexMap[n] == rest.indexMap[n - 1];
      }
    }
  }

  /** The normalised text of a page together with its index map. */
  function Normalize(raw: seq<char>): (r: Normalized)
    ensures |r.text| == |r.indexMap|
    ensures |r.text| == 0 <==> |raw| == 0
    ensures forall n :: 0 <= n < |r.indexMap| ==> r.indexMap[n] < |raw|
    ensures forall n :: 0 < n < |r.indexMap| ==> r.indexMap[n - 1] < r.indexMap[n]
  {
    NormalizeFrom(raw, 0)
  }

  /** The query collapse: every whitespace run becomes one ' '. */
  function Collapse(s: seq<char>): (r: seq<char>)
    ensures |r| <= |s|
    ensures |r| == 0 <==> |s| == 0
  {
    Normalize(s).text
  }

  /** The index map holds exactly the raw indices that start a normalised
      character: every non-whitespace character and the first of every
      whitespace run, and nothing else. */
  lemma {:induction false} IndexMapUnits(raw: seq<char>, i: nat, k: int)
    requires i <= |raw|
    requires i < |raw| ==> StartsUnit(raw, i)
    requires i <= k < |raw|
    ensures k in NormalizeFrom(raw, i).indexMap <==> StartsUnit(raw, k)
    decreases |raw| - i
  {
    if k > i {
      if IsSpace(raw[i]) {
        var j := SkipSpaces(raw, i + 1);
        if k < j {
          assert IsSpace(raw[k - 1]);
          assert !(k in NormalizeFrom(raw, j).indexMap);
        } else {
          IndexMapUnits(raw, j, k);
        }
      } else {
        IndexMapUnits(raw, i + 1, k);
      }
    }
  }

  /** The whole-page form of the above. */
  lemma IndexMapIsUnits(raw: seq<char>)
    ensures forall k :: 0 <= k < |raw| ==> (k in Normalize(raw).indexMap <==> StartsUnit(raw, k))
  {
    forall k | 0 <= k < |raw|
      ensures k in Normalize(raw).indexMap <==> StartsUnit(raw, k)
    {
      IndexMapUnits(raw, 0, k);
    }
  }

  /** Text in collapsed form: its only whitespace is ' ', and no two
      spaces are adjacent. */
  predicate Collapsed(s: seq<char>)
  {
    && (forall n :: 0 <= n < |s| ==> (IsSpace(s[n]) ==> s[n] == ' '))
    && (forall n :: 0 < n < |s| ==> !(s[n - 1] == ' ' && s[n] == ' '))
  }

  /** The normalised text is collapsed. */
  lemma {:induction false} CollapsedFrom(raw: seq<char>, i: nat)
    requires i <= |raw|
    ensures Collapsed(NormalizeFrom(raw, i).text)
    decreases |raw| - i
  {
    if i < |raw| {
      var r := NormalizeFrom(raw, i);
      if IsSpace(raw[i]) {
        var j := SkipSpaces(raw, i + 1);
        CollapsedFrom(raw, j);
        var rest := NormalizeFrom(raw, j);
        assert r.text == [' '] + rest.text;
        if |rest.text| > 0 {
          assert rest.text[0] == raw[j];
        }
        forall n | 0 < n < |r.text|
          ensures !(r.text[n - 1] == ' ' && r.text[n] == ' ')
        {
          assert r.text[n] == rest.text[n - 1];
          if n > 1 {
            assert r.text[n - 1] == rest.text[n - 2];
          }
        }
      } else {
        CollapsedFrom(raw, i + 1);
        var rest := NormalizeFrom(raw, i + 1);
        assert r.text == [raw[i]] + rest.text;
        forall n | 0 < n < |r.text|
          ensures !(r.text[n - 1] == ' ' && r.text[n] == ' ')
        {
          assert r.text[n] == rest.text[n - 1];
          if n > 1 {
            assert r.text[n - 1] == rest.text[n - 2];
          }
        }
      }
    }
  }

  /** Text in which no two whitespace characters are adjacent has nothing
      to collapse: from `i` on, the index map is the identity. */
  lemma {:induction false} SingleSpacedFrom(s: seq<char>, i: nat)
    requires i <= |s|
    requires forall n :: i < n < |s| ==> !(IsSpace(s[n - 1]) && IsSpace(s[n]))
    ensures |NormalizeFrom(s, i).indexMap| == |s| - i
    ensures forall n :: 0 <= n < |s| - i ==> NormalizeFrom(s, i).indexMap[n] == i + n
    decreases |s| - i
  {
    if i < |s| {
      SingleSpacedFrom(s, i + 1);
      var rest := NormalizeFrom(s, i + 1);
      if IsSpace(s[i]) {
        if i + 1 < |s| {
          assert !IsSpace(s[i + 1]);
        }
        assert SkipSpaces(s, i + 1) == i + 1;
      }
      assert NormalizeFrom(s, i).indexMap == [i] + rest.indexMap;
    }
  }

  /** The whole-text form: each character maps to itself, whitespace
      turning into ' '. */
  lemma SingleSpaced(s: seq<char>)
    requires forall n :: 0 < n < |s| ==> !(IsSpace(s[n - 1]) && IsSpace(s[n]))
    ensures |Normalize(s).text| == |s|
    ensures forall n :: 0 <= n < |s| ==> Normalize(s).indexMap[n] == n
    ensures forall n :: 0 <= n < |s| ==> Normalize(s).text[n] == Squash(s[n])
  {
    SingleSpacedFrom(s, 0);
    NormalizedChars(s, 0);
  }

  /** Collapsed text normalises to itself with the identity index map. */
  lemma CollapsedIsFixed(s: seq<char>)
    requires Collapsed(s)
    ensures Normalize(s).text == s
    ensures forall n :: 0 <= n < |s| ==> Normalize(s).indexMap[n] == n
  {
    SingleSpaced(s);
  }

  /** Collapsing the query twice is collapsing it once. */
  lemma CollapseIdempotent(s: seq<char>)
    ensures Collapse(Collapse(s)) == Collapse(s)
  {
    CollapsedFrom(s, 0);
    CollapsedIsFixed(Collapse(s));
  }

  /** Text without whitespace is its own normal form, and its index map is
      the identity. */
  lemma NoSpaceIdentity(raw: seq<char>)
    requires NoSpace(raw)
    ensures Normalize(raw).text == raw
    ensures forall n :: 0 <= n < |raw| ==> Normalize(raw).indexMap[n] == n
  {
    SingleSpaced(raw);
  }

  /** Case folding and normalisation commute: folding the raw text first
      gives the same index map and the folded normalised text. This is why
      the page text may be folded after normalising while the query is
      folded before collapsing. */
  lemma {:induction false} FoldCommutesFrom(raw: seq<char>, i: nat)
    requires i <= |raw|
    ensures NormalizeFrom(Fold(raw), i).indexMap == NormalizeFrom(raw, i).indexMap
    ensures NormalizeFrom(Fold(raw), i).text == Fold(NormalizeFrom(raw, i).text)
    decreases |raw| - i
  {
    if i < |raw| {
      var j := if IsSpace(raw[i]) then SkipSpaces(raw, i + 1) else i + 1;
      FoldCommutesFrom(raw, j);
      SkipSpacesFolded(raw, i + 1);
      FoldStep(raw, i, j);
    }
  }

  /** One step of the above: if folding commutes from the next loop
      position `j`, it commutes from `i`. */
  lemma FoldStep(raw: seq<char>, i: nat, j: nat)
    requires i < |raw|
    requires j == if IsSpace(raw[i]) then SkipSpaces(raw, i + 1) else i + 1
    requires SkipSpaces(Fold(raw), i + 1) == SkipSpaces(raw, i + 1)
    requires NormalizeFrom(Fold(raw), j).indexMap == NormalizeFrom(raw, j).indexMap
    requires NormalizeFrom(Fold(raw), j).text == Fold(NormalizeFrom(raw, j).text)
    ensures NormalizeFrom(Fold(raw), i).indexMap == NormalizeFrom(raw, i).indexMap
    ensures NormalizeFrom(Fold(raw), i).text == Fold(NormalizeFrom(raw, i).text)
  {
    var f := Fold(raw);
    assert f[i] == FoldChar(raw[i]);
    Unfold(raw, i, j);
    Unfold(f, i, j);
    FoldCons(Squash(raw[i]), NormalizeFrom(raw, j).text);
  }

  /** One turn of the outer loop from `i`, which resumes at `j`. */
  lemma Unfold(raw: seq<char>, i: nat, j: nat)
    requires i < |raw|
    requires j == if IsSpace(raw[i]) then SkipSpaces(raw, i + 1) else i + 1
    ensures NormalizeFrom(raw, i)
         == Normalized([Squash(raw[i])] + NormalizeFrom(raw, j).text, [i] + NormalizeFrom(raw, j).indexMap)
  {
  }

  lemma FoldCons(c: char, t: seq<char>)
    ensures Fold([c] + t) == [FoldChar(c)] + Fold(t)
  {
  }

  lemma {:induction false} SkipSpacesFolded(raw: seq<char>, i: nat)
    requires i <= |raw|
    ensures SkipSpaces(Fold(raw), i) == SkipSpaces(raw, i)
    decreases |raw| - i
  {
    if i < |raw| {
      SkipSpacesFolded(raw, i + 1);
    }
  }

  lemma FoldCommutes(s: seq<char>)
    ensures Normalize(Fold(s)).indexMap == Normalize(s).indexMap
    ensures Collapse(Fold(s)) == Fold(Collapse(s))
  {
    FoldCommutesFrom(s, 0);
  }
}
