/**
  Rectangle arithmetic of pdfconv.py: the bounding unions used for detection
  and redaction rectangles, the centred square of small controls, the
  proportional sub-rectangle of a partly matched span and the length
  estimate of text fields. Coordinates are exact reals.
*/
module Geometry {
  import opened Wrappers

  /** A rectangle given by its top-left (x0, y0) and bottom-right (x1, y1)
      corners; nothing forces x0 <= x1 or y0 <= y1. */
  datatype Rect = Rect(x0: real, y0: real, x1: real, y1: real)

  function Min(a: real, b: real): real { if b < a then b else a }

  function Max(a: real, b: real): real { if b > a then b else a }

  /** Width and height as the backend reports them: never negative. */
  function Width(r: Rect): (w: real)
    ensures w >= 0.0
    ensures r.x0 <= r.x1 ==> w == r.x1 - r.x0
  {
    Max(r.x1 - r.x0, 0.0)
  }

  function Height(r: Rect): (h: real)
    ensures h >= 0.0
    ensures r.y0 <= r.y1 ==> h == r.y1 - r.y0
  {
    Max(r.y1 - r.y0, 0.0)
  }

  /** A rectangle is false in a boolean context only when all four
      coordinates are zero. */
  predicate Truthy(r: Rect)
  {
    !(r.x0 == 0.0 && r.y0 == 0.0 && r.x1 == 0.0 && r.y1 == 0.0)
  }

  predicate WellFormed(r: Rect)
  {
    r.x0 <= r.x1 && r.y0 <= r.y1
  }

  /** `inner` lies inside `outer`. */
  predicate Inside(inner: Rect, outer: Rect)
  {
    outer.x0 <= inner.x0 && outer.y0 <= inner.y0 && inner.x1 <= outer.x1 && inner.y1 <= outer.y1
  }

  /** The rectangle moved outwards by dx on the left and right and by dy at
      the top and bottom. */
  function Grow(r: Rect, dx: real, dy: real): (g: Rect)
    ensures dx >= 0.0 && dy >= 0.0 ==> Inside(r, g)
    ensures WellFormed(r) && dx >= 0.0 && dy >= 0.0 ==> WellFormed(g)
  {
    Rect(r.x0 - dx, r.y0 - dy, r.x1 + dx, r.y1 + dy)
  }

  /** The smallest rectangle holding every rectangle of a non-empty list:
      each of its sides is attained by some member. */
  function Bounds(rs: seq<Rect>): (b: Rect)
    requires |rs| > 0
    ensures forall i :: 0 <= i < |rs| ==> Inside(rs[i], b)
    ensures exists i :: 0 <= i < |rs| && b.x0 == rs[i].x0
    ensures exists i :: 0 <= i < |rs| && b.y0 == rs[i].y0
    ensures exists i :: 0 <= i < |rs| && b.x1 == rs[i].x1
    ensures exists i :: 0 <= i < |rs| && b.y1 == rs[i].y1
  {
    if |rs| == 1 then rs[0]
    else
      var rest := Bounds(rs[1..]);
      assert forall i :: 1 <= i < |rs| ==> rs[i] == rs[1..][i - 1];
      Rect(Min(rs[0].x0, rest.x0), Min(rs[0].y0, rest.y0),
           Max(rs[0].x1, rest.x1), Max(rs[0].y1, rest.y1))
  }

  /** `_union_rects` (pdfconv.py:471-481): nothing for an empty list,
      otherwise the bounding box grown by `padding` on every side. */
  function UnionRects(rs: seq<Rect>, padding: real): (u: Option<Rect>)
    ensures u.None? <==> rs == []
    ensures u.Some? ==> exists i :: 0 <= i < |rs| && u.value.x0 == rs[i].x0 - padding
    ensures u.Some? ==> exists i :: 0 <= i < |rs| && u.value.x1 == rs[i].x1 + padding
    ensures u.Some? ==> exists i :: 0 <= i < |rs| && u.value.y0 == rs[i].y0 - padding
    ensures u.Some? ==> exists i :: 0 <= i < |rs| && u.value.y1 == rs[i].y1 + padding
  {
    if rs == [] then None else Some(Grow(Bounds(rs), padding, padding))
  }

  /** The padding of `_union_rects` when called without one. */
  const DefaultPadding: real := 1.5

  /** `_union_rects_no_padding` (pdfconv.py:593-603). */
  function UnionRectsNoPadding(rs: seq<Rect>): (u: Option<Rect>)
    ensures u.None? <==> rs == []
    ensures u.Some? ==> forall i :: 0 <= i < |rs| ==> Inside(rs[i], u.value)
  {
    if rs == [] then None else Some(Bounds(rs))
  }

  /** Every member of a list lies inside its union grown by a non-negative
      padding, and the padded union is the unpadded one grown by it. */
  lemma UnionContainsAll(rs: seq<Rect>, padding: real)
    requires padding >= 0.0
    ensures UnionRects(rs, padding).Some? <==> UnionRectsNoPadding(rs).Some?
    ensures UnionRects(rs, padding).Some? ==>
      UnionRects(rs, padding).value == Grow(UnionRectsNoPadding(rs).value, padding, padding)
    ensures UnionRects(rs, padding).Some? ==>
      forall i :: 0 <= i < |rs| ==> Inside(rs[i], UnionRects(rs, padding).value)
  {
    if rs != [] {
      var b := Bounds(rs);
      forall i | 0 <= i < |rs|
        ensures Inside(rs[i], Grow(b, padding, padding))
      {
        assert Inside(rs[i], b);
      }
    }
  }

  /** Union of well-formed rectangles is well-formed. */
  lemma {:induction false} BoundsWellFormed(rs: seq<Rect>)
    requires |rs| > 0
    requires forall i :: 0 <= i < |rs| ==> WellFormed(rs[i])
    ensures WellFormed(Bounds(rs))
  {
    if |rs| > 1 {
      assert forall i :: 0 <= i < |rs| - 1 ==> rs[1..][i] == rs[i + 1];
      BoundsWellFormed(rs[1..]);
    }
  }

  /** `_center_square` (pdfconv.py:483-491): a square whose side is the
      shorter side of `r`, with the same centre as `r`. */
  function CenterSquare(r: Rect): (s: Rect)
    ensures Width(s) == Height(s) == Min(Width(r), Height(r))
    ensures s.x0 + s.x1 == 2.0 * r.x0 + Width(r)
    ensures s.y0 + s.y1 == 2.0 * r.y0 + Height(r)
    ensures WellFormed(s)
    ensures WellFormed(r) ==> Inside(s, r)
  {
    var side := Min(Width(r), Height(r));
    var cx := r.x0 + Width(r) / 2.0;
    var cy := r.y0 + Height(r) / 2.0;
    var half := side / 2.0;
    Rect(cx - half, cy - half, cx + half, cy + half)
  }

  /** k x c, as k additions of c. Equal to the product (`TimesIsProduct`);
      the additive form keeps the offset arithmetic below linear. */
  function Times(k: nat, c: real): (t: real)
    ensures c >= 0.0 ==> t >= 0.0
  {
    if k == 0 then 0.0 else Times(k - 1, c) + c
  }

  lemma {:induction false} TimesIsProduct(k: nat, c: real)
    ensures Times(k, c) == k as real * c
  {
    if k > 0 {
      TimesIsProduct(k - 1, c);
      Distribute((k - 1) as real, c);
    }
  }

  lemma Distribute(a: real, c: real)
    ensures a * c + c == (a + 1.0) * c
  {
  }

  lemma {:induction false} TimesMono(k: nat, m: nat, c: real)
    requires k <= m && c >= 0.0
    ensures Times(k, c) <= Times(m, c)
  {
    if k < m {
      TimesMono(k, m - 1, c);
    }
  }

  /** n shares of w / n add up to w. */
  lemma TimesWhole(n: nat, w: real)
    requires n > 0
    ensures Times(n, w / n as real) == w
  {
    TimesIsProduct(n, w / n as real);
  }

  /** `_compute_partial_span_rect` (pdfconv.py:552-590): the part of a span's
      rectangle covering characters [start, end) of its `total` clean
      characters, by proportional character width, with half a character
      of inward margin at each boundary that is not a span edge. */
  function PartialSpanRect(r: Rect, total: nat, start: nat, end: nat): (p: Rect)
    ensures total == 0 || (start == 0 && end >= total) ==> p == r
    ensures total > 0 && !(start == 0 && end >= total) ==>
      p.y0 == r.y0 && p.y1 == r.y1 && p.x0 <= p.x1
  {
    if total == 0 then r
    else if start == 0 && end >= total then r
    else
      var cw := Width(r) / total as real;
      var margin := cw * 0.5;
      var x0 := r.x0 + Times(start, cw) + (if start > 0 then margin else 0.0);
      var x1 := r.x0 + Times(end, cw) - (if end < total then margin else 0.0);
      if x1 <= x0 then Rect(x0, r.y0, x0 + cw, r.y1) else Rect(x0, r.y0, x1, r.y1)
  }

  /** The edges of a span rectangle whose left and right offsets are `a` and `b`. */
  function SpanCut(r: Rect, total: nat, start: nat, end: nat, cw: real, a: real, b: real): Rect {
    var x0 := r.x0 + a + (if start > 0 then cw * 0.5 else 0.0);
    var x1 := r.x0 + b - (if end < total then cw * 0.5 else 0.0);
    if x1 <= x0 then Rect(x0, r.y0, x0 + cw, r.y1) else Rect(x0, r.y0, x1, r.y1)
  }

  lemma SpanCutEdges(r: Rect, total: nat, start: nat, end: nat, cw: real, a: real, b: real)
    ensures var p := SpanCut(r, total, start, end, cw, a, b);
      var x0 := r.x0 + a + (if start > 0 then cw * 0.5 else 0.0);
      var x1 := r.x0 + b - (if end < total then cw * 0.5 else 0.0);
      && p.x0 == x0
      && p.x1 == (if x1 <= x0 then x0 + cw else x1)
      && p.y0 == r.y0 && p.y1 == r.y1
  {
  }

  /** The left edge sits `start` character widths in, plus half a character
      when the range does not start the span; the right edge sits `end`
      character widths in, less half a character when the range does not end
      the span; a range that comes out empty is one character wide. */
  lemma PartialSpanRectEdges(r: Rect, total: nat, start: nat, end: nat, cw: real)
    requires total > 0 && !(start == 0 && end >= total)
    requires cw == Width(r) / total as real
    ensures var p := PartialSpanRect(r, total, start, end);
      var x0 := r.x0 + start as real * cw + (if start > 0 then cw * 0.5 else 0.0);
      var x1 := r.x0 + end as real * cw - (if end < total then cw * 0.5 else 0.0);
      && p.x0 == x0
      && p.x1 == (if x1 <= x0 then x0 + cw else x1)
      && p.y0 == r.y0 && p.y1 == r.y1
  {
    var a, b := Times(start, cw), Times(end, cw);
    TimesIsProduct(start, cw);
    TimesIsProduct(end, cw);
    assert PartialSpanRect(r, total, start, end) == SpanCut(r, total, start, end, cw, a, b);
    SpanCutEdges(r, total, start, end, cw, a, b);
  }

  /** A matched character range inside a well-formed span maps to a
      well-formed sub-rectangle of that span's rectangle. */
  lemma PartialSpanRectInside(r: Rect, total: nat, start: nat, end: nat)
    requires WellFormed(r)
    requires start < end <= total
    ensures Inside(PartialSpanRect(r, total, start, end), r)
    ensures WellFormed(PartialSpanRect(r, total, start, end))
  {
    if !(start == 0 && end >= total) {
      var cw := Width(r) / total as real;
      TimesWhole(total, Width(r));
      TimesMono(start + 1, end, cw);
      TimesMono(end, total, cw);
      if end < total {
        TimesMono(end + 1, total, cw);
      }
    }
  }

  /** `estimate_max_length` (pdfconv.py:505-516): how many characters of
      width 0.55 x font size fit on a line of the rectangle less 2 units
      (but at least one font size), times the lines of height 1.3 x font
      size when multi-line; nothing when the font size or the width is not
      positive. */
  function EstimateMaxLength(r: Rect, fontSize: real, multiline: bool): (n: Option<int>)
    ensures n.None? <==> fontSize <= 0.0 || Width(r) <= 0.0
    ensures n.Some? ==> n.value >= 1
    ensures n.Some? ==>
      n.value == CharsPerLine(Width(r), fontSize) * (if multiline then LinesIn(Height(r), fontSize) else 1)
  {
    if fontSize <= 0.0 || Width(r) <= 0.0 then None
    else
      var perLine := CharsPerLine(Width(r), fontSize);
      if multiline then
        var lines := LinesIn(Height(r), fontSize);
        Some(perLine * lines)
      else Some(perLine)
  }

  /** max(1, int(max(width - 2, font size) / (font size x 0.55))): the
      whole number of character advances that fit the usable width, which
      is at least one since the usable width is never below the font size. */
  function CharsPerLine(width: real, fontSize: real): (c: int)
    requires fontSize > 0.0
    ensures c >= 1
    ensures c as real <= Max(width - 2.0, fontSize) / (fontSize * 0.55) < c as real + 1.0
  {
    var usable := Max(width - 2.0, fontSize);
    var q := usable / (fontSize * 0.55);
    assert q >= 1.0 by { AtLeastOne(usable, fontSize * 0.55); }
    if q.Floor < 1 then 1 else q.Floor
  }

  lemma AtLeastOne(x: real, d: real)
    requires 0.0 < d <= x
    ensures x / d >= 1.0
  {
    var q := x / d;
    assert q * d == x;
  }

  /** max(1, int(height / (font size x 1.3))): the whole number of lines
      that fit the height, but at least one. */
  function LinesIn(height: real, fontSize: real): (l: int)
    requires fontSize > 0.0
    ensures l >= 1
    ensures l == 1 || l as real <= height / (fontSize * 1.3)
    ensures height / (fontSize * 1.3) < l as real + 1.0
  {
    var q := height / (fontSize * 1.3);
    if q.Floor < 1 then 1 else q.Floor
  }

  /** A multi-line field never gets a smaller limit than the single-line
      one of the same rectangle. */
  lemma MultilineNotShorter(r: Rect, fontSize: real)
    ensures EstimateMaxLength(r, fontSize, true).Some? <==> EstimateMaxLength(r, fontSize, false).Some?
    ensures EstimateMaxLength(r, fontSize, true).Some? ==>
      EstimateMaxLength(r, fontSize, true).value >= EstimateMaxLength(r, fontSize, false).value
  {
    if fontSize > 0.0 && Width(r) > 0.0 {
      var c := CharsPerLine(Width(r), fontSize);
      var l := LinesIn(Height(r), fontSize);
      assert c * l >= c * 1;
    }
  }

  /** A rectangle at least as wide and as tall never gets a smaller
      length limit. */
  lemma LargerRectNotShorter(r: Rect, s: Rect, fontSize: real, multiline: bool)
    requires Width(r) <= Width(s) && Height(r) <= Height(s)
    ensures EstimateMaxLength(r, fontSize, multiline).Some? ==>
      EstimateMaxLength(s, fontSize, multiline).Some? &&
      EstimateMaxLength(r, fontSize, multiline).value <= EstimateMaxLength(s, fontSize, multiline).value
  {
    if fontSize > 0.0 && Width(r) > 0.0 {
      var d := fontSize * 0.55;
      DivMono(Max(Width(r) - 2.0, fontSize), Max(Width(s) - 2.0, fontSize), d);
      var c := CharsPerLine(Width(r), fontSize);
      var c' := CharsPerLine(Width(s), fontSize);
      assert c <= c';
      if multiline {
        DivMono(Height(r), Height(s), fontSize * 1.3);
        var l := LinesIn(Height(r), fontSize);
        var l' := LinesIn(Height(s), fontSize);
        assert l <= l';
        IntMulMono(c, c', l, l');
      }
    }
  }

  lemma DivMono(x: real, y: real, d: real)
    requires x <= y && d > 0.0
    ensures x / d <= y / d
  {
    assert y / d - x / d == (y - x) / d;
  }

  lemma IntMulMono(a: int, b: int, c: int, d: int)
    requires 0 <= a <= b && 0 <= c <= d
    ensures a * c <= b * d
  {
    assert a * c <= b * c;
    assert b * c <= b * d;
  }

  /** The overlap of two rectangles, inverted (and so of zero width or
      height) when they do not overlap. */
  function Intersect(a: Rect, b: Rect): Rect
  {
    Rect(Max(a.x0, b.x0), Max(a.y0, b.y0), Min(a.x1, b.x1), Min(a.y1, b.y1))
  }

  /** Area as the backend computes it, from the clamped width and height. */
  function Area(r: Rect): (s: real)
    ensures s >= 0.0
  {
    Width(r) * Height(r)
  }

  /** A positive intersection area means the rectangles really overlap, and
      the overlap lies inside both of them. */
  lemma OverlapArea(a: Rect, b: Rect)
    ensures Area(Intersect(a, b)) == Area(Intersect(b, a))
    ensures Area(Intersect(a, b)) > 0.0 ==>
      a.x0 < b.x1 && b.x0 < a.x1 && a.y0 < b.y1 && b.y0 < a.y1
    ensures Area(Intersect(a, b)) > 0.0 ==>
      Truthy(Intersect(a, b)) && Inside(Intersect(a, b), a) && Inside(Intersect(a, b), b)
  {
    var i := Intersect(a, b);
    assert Intersect(b, a) == i;
    if Area(i) > 0.0 {
      assert Width(i) > 0.0 && Height(i) > 0.0;
    }
  }
}
