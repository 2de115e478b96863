/**
  `iter_placeholders` (pdfconv.py:606-651): from the matches of the
  placeholder pattern on a page's clean text to detections, each with the
  precise rectangles to redact and the padded rectangle to place a field in.
  The regular expression itself is not modelled: its matches are an input.
*/
module Placement {
  import opened Wrappers
  import opened Text
  import opened Tokens
  import opened Geometry
  import opened PageIndex

  /** A match on the page text: the text of its first group and its
      character range [start, end). */
  datatype RawMatch = RawMatch(token: string, start: nat, end: nat)

  /** The matched offsets [lo, hi) of one span's clean text. */
  datatype SpanRange = SpanRange(span: nat, lo: nat, hi: nat)

  datatype Detection = Detection(placeholder: string, detectionRect: Rect, redactRects: seq<Rect>)

  function MinNat(a: nat, b: nat): nat { if b < a then b else a }

  function MaxNat(a: nat, b: nat): nat { if b > a then b else a }

  /** The position of the range of `span`, or |ranges| when it has none. */
  function FindRange(ranges: seq<SpanRange>, span: nat): (k: nat)
    ensures k <= |ranges|
    ensures k < |ranges| ==> ranges[k].span == span
    ensures forall j :: 0 <= j < k ==> ranges[j].span != span
  {
    if ranges == [] then 0
    else if ranges[0].span == span then 0
    else 1 + FindRange(ranges[1..], span)
  }

  /** One matched character at offset `pos` of span `span`: a first
      character opens the range [pos, pos + 1) after the others, a later one
      widens the span's range. */
  function Touch(ranges: seq<SpanRange>, span: nat, pos: nat): seq<SpanRange>
  {
    var k := FindRange(ranges, span);
    if k == |ranges| then ranges + [SpanRange(span, pos, pos + 1)]
    else ranges[k := SpanRange(span, MinNat(ranges[k].lo, pos), MaxNat(ranges[k].hi, pos + 1))]
  }

  /** The ranges after the characters [start, end) of the page text,
      skipping positions the index does not have. */
  function GroupFrom(idx: TextIndex, start: nat, end: nat): seq<SpanRange>
    requires Aligned(idx)
    decreases end
  {
    if end <= start then []
    else
      var prev := GroupFrom(idx, start, end - 1);
      var i := end - 1;
      if i >= |idx.charToSpan| then prev
      else Touch(prev, idx.charToSpan[i], idx.charToPos[i])
  }

  predicate Distinct(ranges: seq<SpanRange>)
  {
    forall a, b :: 0 <= a < b < |ranges| ==> ranges[a].span != ranges[b].span
  }

  /** Some range of `span` holds offset `pos`. */
  predicate Covers(ranges: seq<SpanRange>, span: nat, pos: nat)
  {
    exists k :: 0 <= k < |ranges| && ranges[k].span == span && ranges[k].lo <= pos < ranges[k].hi
  }

  /** Every range names a stored span and a non-empty part of its clean
      text. */
  predicate ValidRanges(idx: TextIndex, ranges: seq<SpanRange>)
  {
    forall k :: 0 <= k < |ranges| ==>
      ranges[k].span < |idx.spans| && ranges[k].lo < ranges[k].hi <= |idx.spans[ranges[k].span].clean|
  }

  /** Touching keeps the spans distinct and the ranges valid. */
  lemma TouchValid(idx: TextIndex, ranges: seq<SpanRange>, span: nat, pos: nat)
    requires Distinct(ranges) && ValidRanges(idx, ranges)
    requires span < |idx.spans| && pos < |idx.spans[span].clean|
    ensures Distinct(Touch(ranges, span, pos))
    ensures ValidRanges(idx, Touch(ranges, span, pos))
  {
    var k := FindRange(ranges, span);
    var t := Touch(ranges, span, pos);
    assert k < |ranges| ==> t[k].span == span;
  }

  /** Touching covers the new offset and keeps every offset covered that was
      covered before. */
  lemma TouchCovers(ranges: seq<SpanRange>, span: nat, pos: nat)
    ensures Covers(Touch(ranges, span, pos), span, pos)
    ensures forall s: nat, p: nat :: Covers(ranges, s, p) ==> Covers(Touch(ranges, span, pos), s, p)
  {
    var k := FindRange(ranges, span);
    var t := Touch(ranges, span, pos);
    assert t[k].span == span && t[k].lo <= pos < t[k].hi;
    forall s: nat, p: nat | Covers(ranges, s, p)
      ensures Covers(t, s, p)
    {
      var w :| 0 <= w < |ranges| && ranges[w].span == s && ranges[w].lo <= p < ranges[w].hi;
      assert t[w].span == s && t[w].lo <= p < t[w].hi;
    }
  }

  /** Every character of the page text points at a stored span and at an
      offset inside that span's clean text. */
  predicate PointsInto(idx: TextIndex)
  {
    Aligned(idx) &&
    forall i :: 0 <= i < |idx.charToSpan| ==>
      idx.charToSpan[i] < |idx.spans| && idx.charToPos[i] < |idx.spans[idx.charToSpan[i]].clean|
  }

  lemma WellFormedPointsInto(idx: TextIndex)
    requires WellFormedIndex(idx)
    ensures PointsInto(idx)
  {
  }

  /** The grouping of a match over a well-formed index has distinct spans
      and valid non-empty ranges. */
  lemma {:induction false} GroupValid(idx: TextIndex, start: nat, end: nat)
    requires PointsInto(idx)
    ensures Distinct(GroupFrom(idx, start, end))
    ensures ValidRanges(idx, GroupFrom(idx, start, end))
    decreases end
  {
    if end > start {
      var prev := GroupFrom(idx, start, end - 1);
      GroupValid(idx, start, end - 1);
      var i := end - 1;
      if i < |idx.charToSpan| {
        var sp, ps := idx.charToSpan[i], idx.charToPos[i];
        assert sp < |idx.spans| && ps < |idx.spans[sp].clean|;
        TouchValid(idx, prev, sp, ps);
      }
    }
  }

  /** Every matched position the index has is inside the range of its span. */
  lemma {:induction false} GroupCovers(idx: TextIndex, start: nat, end: nat)
    requires Aligned(idx)
    ensures forall i :: start <= i < end && i < |idx.charToSpan| ==>
      Covers(GroupFrom(idx, start, end), idx.charToSpan[i], idx.charToPos[i])
    decreases end
  {
    if end > start {
      var prev := GroupFrom(idx, start, end - 1);
      var g := GroupFrom(idx, start, end);
      GroupCovers(idx, start, end - 1);
      var i := end - 1;
      if i < |idx.charToSpan| {
        var sp, ps := idx.charToSpan[i], idx.charToPos[i];
        assert g == Touch(prev, sp, ps);
        TouchCovers(prev, sp, ps);
        forall j | start <= j < end && j < |idx.charToSpan|
          ensures Covers(g, idx.charToSpan[j], idx.charToPos[j])
        {
          if j < i {
            assert Covers(prev, idx.charToSpan[j], idx.charToPos[j]);
          }
        }
      } else {
        assert g == prev;
      }
    }
  }

  /** The grouping of a match over a well-formed index: distinct spans,
      valid non-empty ranges, and every matched position the index has is
      inside the range of its span. */
  lemma GroupFacts(idx: TextIndex, start: nat, end: nat)
    requires WellFormedIndex(idx)
    ensures Distinct(GroupFrom(idx, start, end))
    ensures ValidRanges(idx, GroupFrom(idx, start, end))
    ensures forall i :: start <= i < end && i < |idx.charToSpan| ==>
      Covers(GroupFrom(idx, start, end), idx.charToSpan[i], idx.charToPos[i])
  {
    WellFormedPointsInto(idx);
    GroupValid(idx, start, end);
    GroupCovers(idx, start, end);
  }

  /** The per-span loop of pdfconv.py:640-644: the partial rectangle of
      each range, in the order the spans were first met. */
  function RedactRects(idx: TextIndex, ranges: seq<SpanRange>): seq<Rect>
  {
    if ranges == [] then []
    else
      var prev := RedactRects(idx, ranges[..|ranges| - 1]);
      var r := ranges[|ranges| - 1];
      if r.span < |idx.spans| then
        var s := idx.spans[r.span];
        prev + [PartialSpanRect(s.rect, |s.clean|, r.lo, r.hi)]
      else prev
  }

  /** Over valid ranges there is one rectangle per range, the partial
      rectangle of that range's span. */
  lemma {:induction false} RedactRectsOfValid(idx: TextIndex, ranges: seq<SpanRange>)
    requires ValidRanges(idx, ranges)
    ensures |RedactRects(idx, ranges)| == |ranges|
    ensures forall k :: 0 <= k < |ranges| ==>
      RedactRects(idx, ranges)[k] ==
        PartialSpanRect(idx.spans[ranges[k].span].rect, |idx.spans[ranges[k].span].clean|, ranges[k].lo, ranges[k].hi)
  {
    if ranges != [] {
      var init := ranges[..|ranges| - 1];
      assert forall k :: 0 <= k < |init| ==> init[k] == ranges[k];
      RedactRectsOfValid(idx, init);
    }
  }

  /** The rectangles of every stored span are well formed. */
  predicate SpanRectsWellFormed(idx: TextIndex)
  {
    forall k :: 0 <= k < |idx.spans| ==> WellFormed(idx.spans[k].rect)
  }

  /** Each redaction rectangle lies inside the rectangle of the span it
      comes from, so no text outside the matched spans is erased. */
  lemma RedactInsideSpans(idx: TextIndex, ranges: seq<SpanRange>)
    requires ValidRanges(idx, ranges) && SpanRectsWellFormed(idx)
    ensures |RedactRects(idx, ranges)| == |ranges|
    ensures forall k :: 0 <= k < |ranges| ==>
      WellFormed(RedactRects(idx, ranges)[k]) &&
      Inside(RedactRects(idx, ranges)[k], idx.spans[ranges[k].span].rect)
  {
    RedactRectsOfValid(idx, ranges);
    forall k | 0 <= k < |ranges|
      ensures WellFormed(RedactRects(idx, ranges)[k])
      ensures Inside(RedactRects(idx, ranges)[k], idx.spans[ranges[k].span].rect)
    {
      var s := idx.spans[ranges[k].span];
      PartialSpanRectInside(s.rect, |s.clean|, ranges[k].lo, ranges[k].hi);
    }
  }

  /** The detection of one match: the redaction rectangles, their union
      padded by 1.5 when there is at least one, and a detection only when
      that union is a true rectangle. */
  function DetectionOf(idx: TextIndex, m: RawMatch): Option<Detection>
    requires Aligned(idx)
  {
    var redacts := RedactRects(idx, GroupFrom(idx, m.start, m.end));
    var union := if redacts != [] then UnionRects(redacts, DefaultPadding) else None;
    if union.Some? && Truthy(union.value) then
      Some(Detection(NormalizeToken(m.token), union.value, redacts))
    else None
  }

  /** The detections of the matches, in match order. */
  function Detections(idx: TextIndex, matches: seq<RawMatch>): seq<Detection>
    requires Aligned(idx)
  {
    if matches == [] then []
    else
      var prev := Detections(idx, matches[..|matches| - 1]);
      var d := DetectionOf(idx, matches[|matches| - 1]);
      if d.Some? then prev + [d.value] else prev
  }

  /** What `iter_placeholders` yields for a page with spans `raw`, given the
      pattern's matches on its clean text: nothing for a page without text. */
  function Placeholders(raw: seq<RawSpan>, matches: seq<RawMatch>): seq<Detection>
  {
    var idx := PageTextIndex(raw);
    PageTextIndexWellFormed(raw);
    if idx.pageClean == [] then [] else Detections(idx, matches)
  }

  /** A detection always carries at least one redaction rectangle, every one
      of them inside its detection rectangle, which is their union padded by
      1.5; its placeholder is the repaired token of the match. */
  lemma DetectionOfFacts(idx: TextIndex, m: RawMatch)
    requires Aligned(idx)
    ensures DetectionOf(idx, m).Some? ==>
      var d := DetectionOf(idx, m).value;
      d.placeholder == NormalizeToken(m.token) &&
      d.redactRects != [] &&
      UnionRects(d.redactRects, DefaultPadding) == Some(d.detectionRect) &&
      Truthy(d.detectionRect) &&
      forall k :: 0 <= k < |d.redactRects| ==> Inside(d.redactRects[k], d.detectionRect)
  {
    var redacts := RedactRects(idx, GroupFrom(idx, m.start, m.end));
    UnionContainsAll(redacts, DefaultPadding);
  }

  /** Every detection of a page satisfies `DetectionOfFacts` for one of the
      matches, and there are never more detections than matches. */
  lemma {:induction false} DetectionsFacts(idx: TextIndex, matches: seq<RawMatch>)
    requires Aligned(idx)
    ensures |Detections(idx, matches)| <= |matches|
    ensures forall k :: 0 <= k < |Detections(idx, matches)| ==>
      var d := Detections(idx, matches)[k];
      (exists j :: 0 <= j < |matches| && DetectionOf(idx, matches[j]) == Some(d)) &&
      d.redactRects != [] &&
      forall q :: 0 <= q < |d.redactRects| ==> Inside(d.redactRects[q], d.detectionRect)
  {
    if matches != [] {
      var init := matches[..|matches| - 1];
      var last := matches[|matches| - 1];
      DetectionsFacts(idx, init);
      DetectionOfFacts(idx, last);
      var ds := Detections(idx, matches);
      forall k | 0 <= k < |ds|
        ensures exists j :: 0 <= j < |matches| && DetectionOf(idx, matches[j]) == Some(ds[k])
      {
        if k < |Detections(idx, init)| {
          var j :| 0 <= j < |init| && DetectionOf(idx, init[j]) == Some(Detections(idx, init)[k]);
          assert matches[j] == init[j];
        } else {
          assert DetectionOf(idx, matches[|matches| - 1]) == Some(ds[k]);
        }
      }
    }
  }

  /** One more match adds its detection, if it has one, at the end. */
  lemma DetectionsSnoc(idx: TextIndex, matches: seq<RawMatch>, m: RawMatch)
    requires Aligned(idx)
    ensures Detections(idx, matches + [m]) ==
      Detections(idx, matches) + (if DetectionOf(idx, m).Some? then [DetectionOf(idx, m).value] else [])
  {
    assert (matches + [m])[..|matches|] == matches;
  }

  /** The step of DetectionsConcat on plain sequences: what is appended
      after a concatenation is appended after its second half. */
  lemma AppendAfter(whole: seq<Detection>, da: seq<Detection>, di: seq<Detection>, e: seq<Detection>, db: seq<Detection>)
    requires whole == (da + di) + e && db == di + e
    ensures whole == da + db
  {
  }

  /** The detections of two runs of matches are those of the first run
      followed by those of the second. */
  lemma {:induction false} DetectionsConcat(idx: TextIndex, a: seq<RawMatch>, b: seq<RawMatch>)
    requires Aligned(idx)
    ensures Detections(idx, a + b) == Detections(idx, a) + Detections(idx, b)
    decreases |b|
  {
    if b == [] {
      assert a + b == a;
    } else {
      var init := b[..|b| - 1];
      DetectionsConcat(idx, a, init);
      ConcatStep(idx, a, init, b[|b| - 1]);
      assert b == init + [b[|b| - 1]];
    }
  }

  /** One step of DetectionsConcat: a match appended to the second run. */
  lemma ConcatStep(idx: TextIndex, a: seq<RawMatch>, init: seq<RawMatch>, last: RawMatch)
    requires Aligned(idx)
    requires Detections(idx, a + init) == Detections(idx, a) + Detections(idx, init)
    ensures Detections(idx, a + (init + [last])) == Detections(idx, a) + Detections(idx, init + [last])
  {
    assert a + (init + [last]) == (a + init) + [last];
    DetectionsSnoc(idx, a + init, last);
    DetectionsSnoc(idx, init, last);
    var e := if DetectionOf(idx, last).Some? then [DetectionOf(idx, last).value] else [];
    AppendAfter(Detections(idx, a + (init + [last])), Detections(idx, a), Detections(idx, init), e, Detections(idx, init + [last]));
  }

  /** Every detected match contributes its detection, in match order: the
      detections of the earlier matches come before it and those of the
      later ones after it. */
  lemma DetectedInOrder(idx: TextIndex, matches: seq<RawMatch>, j: nat)
    requires Aligned(idx) && j < |matches| && DetectionOf(idx, matches[j]).Some?
    ensures Detections(idx, matches) ==
      Detections(idx, matches[..j]) + [DetectionOf(idx, matches[j]).value] + Detections(idx, matches[j + 1..])
    ensures DetectionOf(idx, matches[j]).value in Detections(idx, matches)
  {
    assert matches == matches[..j] + [matches[j]] + matches[j + 1..];
    DetectionsConcat(idx, matches[..j] + [matches[j]], matches[j + 1..]);
    DetectionsSnoc(idx, matches[..j], matches[j]);
    assert Detections(idx, []) == [];
    assert Detections(idx, matches[..j]) + [DetectionOf(idx, matches[j]).value] ==
      Detections(idx, matches[..j] + [matches[j]]);
  }

  /** Over a well-formed index with well-formed span rectangles, a match
      that covers at least one character of the page is always detected. */
  lemma CoveringMatchDetected(idx: TextIndex, m: RawMatch)
    requires WellFormedIndex(idx) && SpanRectsWellFormed(idx)
    requires m.start < m.end && m.start < |idx.pageClean|
    ensures DetectionOf(idx, m).Some?
  {
    var ranges := GroupFrom(idx, m.start, m.end);
    GroupFacts(idx, m.start, m.end);
    assert Covers(ranges, idx.charToSpan[m.start], idx.charToPos[m.start]);
    RedactRectsOfValid(idx, ranges);
    RedactInsideSpans(idx, ranges);
    var redacts := RedactRects(idx, ranges);
    BoundsWellFormed(redacts);
    var b := Bounds(redacts);
    assert UnionRects(redacts, DefaultPadding) == Some(Grow(b, DefaultPadding, DefaultPadding));
  }

  /** When every match covers a character of the page, there is exactly one
      detection per match, in match order. */
  lemma {:induction false} CoveringMatchesDetected(idx: TextIndex, matches: seq<RawMatch>)
    requires WellFormedIndex(idx) && SpanRectsWellFormed(idx)
    requires forall j :: 0 <= j < |matches| ==>
      matches[j].start < matches[j].end && matches[j].start < |idx.pageClean|
    ensures |Detections(idx, matches)| == |matches|
    ensures forall j :: 0 <= j < |matches| ==>
      Some(Detections(idx, matches)[j]) == DetectionOf(idx, matches[j])
    decreases |matches|
  {
    if matches != [] {
      var init := matches[..|matches| - 1];
      var last := matches[|matches| - 1];
      assert forall j :: 0 <= j < |init| ==> init[j] == matches[j];
      CoveringMatchesDetected(idx, init);
      CoveringMatchDetected(idx, last);
      DetectionsSnoc(idx, init, last);
      assert matches == init + [last];
      var prev := Detections(idx, init);
      assert Detections(idx, matches) == prev + [DetectionOf(idx, last).value];
      forall j | 0 <= j < |matches|
        ensures Some(Detections(idx, matches)[j]) == DetectionOf(idx, matches[j])
      {
        if j < |init| {
          assert Detections(idx, matches)[j] == prev[j];
        }
      }
    }
  }

  // ---------------------------------------------------------------------
  // The loops of iter_placeholders

  /** The character loop of pdfconv.py:628-637. */
  method GroupBySpan(idx: TextIndex, start: nat, end: nat) returns (ranges: seq<SpanRange>)
    requires Aligned(idx)
    ensures ranges == GroupFrom(idx, start, end)
  {
    ranges := [];
    if end <= start {
      return;
    }
    var i := start;
    while i < end
      invariant start <= i <= end
      invariant ranges == GroupFrom(idx, start, i)
      decreases end - i
    {
      if i < |idx.charToSpan| {
        var spanIdx := idx.charToSpan[i];
        var posInSpan := idx.charToPos[i];
        var k := FindRange(ranges, spanIdx);
        if k == |ranges| {
          ranges := ranges + [SpanRange(spanIdx, posInSpan, posInSpan + 1)];
        } else {
          ranges := ranges[k := SpanRange(spanIdx, MinNat(ranges[k].lo, posInSpan), MaxNat(ranges[k].hi, posInSpan + 1))];
        }
      }
      i := i + 1;
    }
  }

  /** The span loop of pdfconv.py:640-644. */
  method CollectRedactRects(idx: TextIndex, ranges: seq<SpanRange>) returns (rects: seq<Rect>)
    ensures rects == RedactRects(idx, ranges)
  {
    rects := [];
    for k := 0 to |ranges|
      invariant rects == RedactRects(idx, ranges[..k])
    {
      assert ranges[..k + 1][..k] == ranges[..k];
      var r := ranges[k];
      if r.span < |idx.spans| {
        var spanInfo := idx.spans[r.span];
        rects := rects + [PartialSpanRect(spanInfo.rect, |spanInfo.clean|, r.lo, r.hi)];
      }
    }
    assert ranges[..|ranges|] == ranges;
  }

  /** One pass of the match loop of pdfconv.py:620-650. */
  method DetectMatch(idx: TextIndex, m: RawMatch) returns (d: Option<Detection>)
    requires Aligned(idx)
    ensures d == DetectionOf(idx, m)
  {
    var placeholder := NormalizePlaceholderToken(m.token);
    var ranges := GroupBySpan(idx, m.start, m.end);
    var redacts := CollectRedactRects(idx, ranges);
    var detectionRect := if redacts != [] then UnionRects(redacts, DefaultPadding) else None;
    if detectionRect.Some? && Truthy(detectionRect.value) {
      d := Some(Detection(placeholder, detectionRect.value, redacts));
    } else {
      d := None;
    }
  }

  /** `iter_placeholders` (pdfconv.py:606-651), over the page's spans and
      the pattern's matches on its clean text. */
  method IterPlaceholders(raw: seq<RawSpan>, matches: seq<RawMatch>) returns (detections: seq<Detection>)
    ensures detections == Placeholders(raw, matches)
  {
    var idx := BuildPageTextIndex(raw);
    if idx.pageClean == [] {
      return [];
    }
    detections := [];
    for j := 0 to |matches|
      invariant detections == Detections(idx, matches[..j])
    {
      assert matches[..j + 1][..j] == matches[..j];
      var d := DetectMatch(idx, matches[j]);
      if d.Some? {
        detections := detections + [d.value];
      }
    }
    assert matches[..|matches|] == matches;
  }
}
