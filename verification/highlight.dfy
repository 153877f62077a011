/** The highlight overlay of `src/components/PdfPage.tsx`: `pdfToCanvas`
    maps a character box from PDF space (points, origin bottom-left, Y up)
    to canvas space (pixels, origin top-left, Y down), and the overlay
    effect becomes the list of drawing commands it issues, in order. */
module Highlight {
  import opened Types

  /** A box in PDF space. */
  datatype Box = Box(left: real, right: real, bottom: real, top: real)

  /** A rectangle in canvas space: `fillRect(x, y, w, h)`. */
  datatype Rect = Rect(x: real, y: real, w: real, h: real)

  /** `Passive` is the fill style 'rgba(255, 220, 0, 0.45)' of the other
      matches, `Active` the style 'rgba(255, 140, 0, 0.75)' of the active
      one. */
  datatype Colour = Passive | Active

  /** `clearRect(0, 0, width, height)`, or a `fillRect` in a colour. */
  datatype DrawCmd = Clear(width: int, height: int) | Fill(rect: Rect, colour: Colour)

  function BoxOf(c: CharBox): Box
  {
    Box(c.left, c.right, c.bottom, c.top)
  }

  /** `pdfToCanvas`, with the same scale for position and size. */
  function PdfToCanvas(b: Box, pageHeightPt: real, scale: real): Rect
  {
    Rect(b.left * scale, (pageHeightPt - b.top) * scale, (b.right - b.left) * scale, (b.top - b.bottom) * scale)
  }

  /** The inverse map, from canvas space back to PDF space. */
  function CanvasToPdf(r: Rect, pageHeightPt: real, scale: real): Box
    requires scale != 0.0
  {
    var left := r.x / scale;
    var top := pageHeightPt - r.y / scale;
    Box(left, left + r.w / scale, top - r.h / scale, top)
  }

  /** A rectangle is drawn only when it has positive width and height. */
  predicate Visible(r: Rect)
  {
    r.w > 0.0 && r.h > 0.0
  }

  /** The canvas rectangle of character `i` of a page. */
  function GlyphRect(page: PageData, i: nat): Rect
    requires i < |page.chars|
  {
    PdfToCanvas(BoxOf(page.chars[i]), page.originalHeight, page.scale)
  }

  /** Character `i` exists on the page and its rectangle is drawn. */
  predicate Drawn(page: PageData, i: int)
  {
    0 <= i < |page.chars| && Visible(GlyphRect(page, i))
  }

  /** Mapping a box to the canvas and back gives the box again. */
  lemma PdfRoundTrip(b: Box, pageHeightPt: real, scale: real)
    requires scale != 0.0
    ensures CanvasToPdf(PdfToCanvas(b, pageHeightPt, scale), pageHeightPt, scale) == b
  {
    var r := PdfToCanvas(b, pageHeightPt, scale);
    DivCancels(b.left, scale);
    DivCancels(pageHeightPt - b.top, scale);
    DivCancels(b.right - b.left, scale);
    DivCancels(b.top - b.bottom, scale);
  }

  /** Mapping a rectangle back to PDF space and to the canvas again gives
      the rectangle again. */
  lemma CanvasRoundTrip(r: Rect, pageHeightPt: real, scale: real)
    requires scale != 0.0
    ensures PdfToCanvas(CanvasToPdf(r, pageHeightPt, scale), pageHeightPt, scale) == r
  {
    MulCancels(r.x, scale);
    MulCancels(r.y, scale);
    MulCancels(r.w, scale);
    MulCancels(r.h, scale);
  }

  lemma DivCancels(a: real, s: real)
    requires s != 0.0
    ensures (a * s) / s == a
  {
  }

  lemma MulCancels(a: real, s: real)
    requires s != 0.0
    ensures (a / s) * s == a
  {
  }

  /** The Y-flip: a box reaching the top of the page lands on the top edge
      of the canvas, and one resting on the bottom of the page reaches the
      canvas's bottom edge at `pageHeightPt * scale`. */
  lemma YFlip(b: Box, pageHeightPt: real, scale: real)
    ensures b.top == pageHeightPt ==> PdfToCanvas(b, pageHeightPt, scale).y == 0.0
    ensures b.bottom == 0.0 ==>
              PdfToCanvas(b, pageHeightPt, scale).y + PdfToCanvas(b, pageHeightPt, scale).h == pageHeightPt * scale
  {
  }

  /** At a positive scale, a box is drawn exactly when it has positive
      extent in both directions. */
  lemma VisibleIffExtent(b: Box, pageHeightPt: real, scale: real)
    requires scale > 0.0
    ensures Visible(PdfToCanvas(b, pageHeightPt, scale)) <==> b.left < b.right && b.bottom < b.top
  {
    PositiveProduct(b.right - b.left, scale);
    PositiveProduct(b.top - b.bottom, scale);
  }

  lemma PositiveProduct(a: real, s: real)
    requires s > 0.0
    ensures a * s > 0.0 <==> a > 0.0
  {
    if a <= 0.0 {
      assert a * s <= 0.0 * s;
    }
  }

  /** The zero box left where a character's box could not be read gives
      an empty rectangle, which is never drawn. */
  lemma PlaceholderNotDrawn(c: CharBox, pageHeightPt: real, scale: real)
    requires c.left == 0.0 && c.right == 0.0 && c.bottom == 0.0 && c.top == 0.0
    ensures PdfToCanvas(BoxOf(c), pageHeightPt, scale).w == 0.0
    ensures PdfToCanvas(BoxOf(c), pageHeightPt, scale).h == 0.0
    ensures !Visible(PdfToCanvas(BoxOf(c), pageHeightPt, scale))
  {
  }

  /** A 10 by 10 point box with top 15 on a 100-point page, at scale 2,
      is the canvas rectangle at (20, 170) of size 20 by 20. */
  lemma CanvasExample()
    ensures PdfToCanvas(Box(10.0, 20.0, 5.0, 15.0), 100.0, 2.0) == Rect(20.0, 170.0, 20.0, 20.0)
  {
  }

  /** The `for` loop of `drawMatch` from character `i` up to, not
      including, `end`: characters missing from the page and empty
      rectangles are skipped. */
  function DrawFrom(page: PageData, i: int, end: int, colour: Colour): (r: seq<DrawCmd>)
    ensures forall k :: 0 <= k < |r| ==> r[k].Fill? && r[k].colour == colour
    ensures |r| <= if end > i then end - i else 0
    decreases end - i
  {
    if i >= end then []
    else
      var here := if Drawn(page, i) then [Fill(GlyphRect(page, i), colour)] else [];
      here + DrawFrom(page, i + 1, end, colour)
  }

  /** `drawMatch(match, color)`. */
  function DrawMatch(page: PageData, m: SearchMatch, colour: Colour): seq<DrawCmd>
  {
    DrawFrom(page, m.charIndex, m.charIndex + m.charCount, colour)
  }

  /** `drawMatch` fills exactly the drawn characters of the run
      `[charIndex, charIndex + charCount)`, in the given colour. */
  lemma {:induction false} DrawFromExact(page: PageData, i: int, end: int, colour: Colour, cmd: DrawCmd)
    ensures cmd in DrawFrom(page, i, end, colour) <==>
              && cmd.Fill? && cmd.colour == colour
              && exists j :: i <= j < end && Drawn(page, j) && cmd.rect == GlyphRect(page, j)
    decreases end - i
  {
    if i < end {
      DrawFromExact(page, i + 1, end, colour, cmd);
      if cmd.Fill? && cmd.colour == colour {
        if exists j :: i <= j < end && Drawn(page, j) && cmd.rect == GlyphRect(page, j) {
          var j :| i <= j < end && Drawn(page, j) && cmd.rect == GlyphRect(page, j);
          if j == i {
            assert cmd == Fill(GlyphRect(page, i), colour);
          }
        }
      }
    }
  }

  /** The first match whose `charIndex` is `a`: `matches.find(...)`. */
  function FindByCharIndex(matches: seq<SearchMatch>, a: int): (r: Option<SearchMatch>)
    ensures r.None? <==> forall k :: 0 <= k < |matches| ==> matches[k].charIndex != a
    ensures r.Some? ==> exists k :: 0 <= k < |matches| && matches[k] == r.value
                          && r.value.charIndex == a
                          && forall k' :: 0 <= k' < k ==> matches[k'].charIndex != a
  {
    if |matches| == 0 then None
    else if matches[0].charIndex == a then Some(matches[0])
    else
      var rest := FindByCharIndex(matches[1..], a);
      assert forall k :: 0 < k < |matches| ==> matches[k] == matches[1..][k - 1];
      rest
  }

  /** The first loop: every match other than the active one, in order,
      in the passive colour. */
  function Passives(page: PageData, matches: seq<SearchMatch>, active: int): (r: seq<DrawCmd>)
    ensures forall k :: 0 <= k < |r| ==> r[k].Fill? && r[k].colour == Passive
  {
    if |matches| == 0 then []
    else
      var first := if matches[0].charIndex != active then DrawMatch(page, matches[0], Passive) else [];
      first + Passives(page, matches[1..], active)
  }

  /** What the active match contributes: nothing unless `active >= 0` and
      some match starts there. */
  function ActivePart(page: PageData, matches: seq<SearchMatch>, active: int): (r: seq<DrawCmd>)
    ensures forall k :: 0 <= k < |r| ==> r[k].Fill? && r[k].colour == Active
    ensures active < 0 ==> r == []
  {
    if active >= 0 then
      match FindByCharIndex(matches, active)
      case Some(m) => DrawMatch(page, m, Active)
      case None => []
    else []
  }

  /** The overlay effect: clear the canvas, stop if there are no matches,
      draw the other matches in the passive colour, then the active match
      on top. */
  function Overlay(page: PageData, matches: seq<SearchMatch>, active: int): (r: seq<DrawCmd>)
    ensures |r| > 0 && r[0] == Clear(page.width, page.height)
    ensures forall k :: 0 < k < |r| ==> r[k].Fill?
    ensures |matches| == 0 ==> r == [Clear(page.width, page.height)]
    ensures active < 0 ==> forall k :: 0 < k < |r| ==> r[k].colour == Passive
    ensures forall i, j :: 0 < i < j < |r| && r[i].colour == Active ==> r[j].colour == Active
  {
    var clear := [Clear(page.width, page.height)];
    if |matches| == 0 then clear
    else
      var p := Passives(page, matches, active);
      var a := ActivePart(page, matches, active);
      assert forall k :: 0 < k < |clear + p + a| ==>
               (clear + p + a)[k] == if k <= |p| then p[k - 1] else a[k - 1 - |p|];
      clear + p + a
  }

  /** The passive fills are exactly the drawn characters of the matches
      whose `charIndex` is not the active one. */
  lemma {:induction false} PassivesExact(page: PageData, matches: seq<SearchMatch>, active: int, cmd: DrawCmd)
    ensures cmd in Passives(page, matches, active) <==>
              exists k :: 0 <= k < |matches| && matches[k].charIndex != active
                && cmd in DrawMatch(page, matches[k], Passive)
    decreases |matches|
  {
    if |matches| > 0 {
      PassivesExact(page, matches[1..], active, cmd);
      if exists k :: 0 <= k < |matches| && matches[k].charIndex != active
           && cmd in DrawMatch(page, matches[k], Passive) {
        var k :| 0 <= k < |matches| && matches[k].charIndex != active
                 && cmd in DrawMatch(page, matches[k], Passive);
        if k > 0 {
          assert matches[1..][k - 1] == matches[k];
        }
      }
      if cmd in Passives(page, matches[1..], active) {
        var k :| 0 <= k < |matches[1..]| && matches[1..][k].charIndex != active
                 && cmd in DrawMatch(page, matches[1..][k], Passive);
        assert matches[k + 1] == matches[1..][k];
      }
    }
  }

  /** The overlay's fills: a passive fill is a drawn character of a match
      that is not the active one; an active fill is a drawn character of
      the first match starting at `active`, and only when `active >= 0`. */
  lemma OverlayExact(page: PageData, matches: seq<SearchMatch>, active: int, rect: Rect)
    ensures Fill(rect, Passive) in Overlay(page, matches, active) <==>
              exists k :: 0 <= k < |matches| && matches[k].charIndex != active
                && Fill(rect, Passive) in DrawMatch(page, matches[k], Passive)
    ensures Fill(rect, Active) in Overlay(page, matches, active) <==>
              && active >= 0
              && FindByCharIndex(matches, active).Some?
              && Fill(rect, Active) in DrawMatch(page, FindByCharIndex(matches, active).value, Active)
  {
    PassivesExact(page, matches, active, Fill(rect, Passive));
    if |matches| > 0 {
      var p := Passives(page, matches, active);
      var a := ActivePart(page, matches, active);
      assert Overlay(page, matches, active) == [Clear(page.width, page.height)] + p + a;
      assert Fill(rect, Passive) !in a;
      assert Fill(rect, Active) !in p;
    } else {
      assert FindByCharIndex(matches, active).None?;
    }
  }
}
