/**
  The page text index of `build_page_text_index` (pdfconv.py:518-550): the
  whitespace-free text of a page, with, for each of its characters, the
  span it came from and its offset in that span's clean text.
*/
module PageIndex {
  import opened Text
  import opened Tokens
  import opened Geometry

  /** A text span as the backend lists it, in reading order (blocks, then
      lines, then spans). */
  datatype RawSpan = RawSpan(text: string, bbox: Rect)

  /** A span kept in the index: its rectangle, its text as extracted and that
      text without invisible characters and whitespace. */
  datatype SpanRecord = SpanRecord(rect: Rect, text: string, clean: string)

  datatype TextIndex = TextIndex(
    spans: seq<SpanRecord>,
    pageClean: string,
    charToSpan: seq<nat>,
    charToPos: seq<nat>)

  function Repeat(v: nat, n: nat): (r: seq<nat>)
    ensures |r| == n && forall i :: 0 <= i < n ==> r[i] == v
  {
    seq(n, _ => v)
  }

  function Range(n: nat): (r: seq<nat>)
    ensures |r| == n && forall i :: 0 <= i < n ==> r[i] == i
  {
    seq(n, i requires 0 <= i < n => i as nat)
  }

  /** The index after one more span: a span whose text is empty once the
      invisible characters or the whitespace are removed is skipped. */
  function AddSpan(idx: TextIndex, sp: RawSpan): TextIndex
  {
    var text := StripInvisible(sp.text);
    if text == [] then idx
    else
      var clean := RemoveWhitespace(text);
      if clean == [] then idx
      else
        TextIndex(
          idx.spans + [SpanRecord(sp.bbox, sp.text, clean)],
          idx.pageClean + clean,
          idx.charToSpan + Repeat(|idx.spans|, |clean|),
          idx.charToPos + Range(|clean|))
  }

  /** The index of a page whose spans are `raw`. */
  function PageTextIndex(raw: seq<RawSpan>): TextIndex
  {
    if raw == [] then TextIndex([], [], [], [])
    else AddSpan(PageTextIndex(raw[..|raw| - 1]), raw[|raw| - 1])
  }

  /** The clean texts of `spans`, one after the other. */
  function CleanConcat(spans: seq<SpanRecord>): string
  {
    if spans == [] then [] else CleanConcat(spans[..|spans| - 1]) + spans[|spans| - 1].clean
  }

  predicate Aligned(idx: TextIndex)
  {
    |idx.charToSpan| == |idx.pageClean| && |idx.charToPos| == |idx.pageClean|
  }

  /** Every character of the page text is the character its two entries
      point at. */
  predicate Owned(idx: TextIndex)
    requires Aligned(idx)
  {
    forall i :: 0 <= i < |idx.pageClean| ==>
      idx.charToSpan[i] < |idx.spans| &&
      idx.charToPos[i] < |idx.spans[idx.charToSpan[i]].clean| &&
      idx.pageClean[i] == idx.spans[idx.charToSpan[i]].clean[idx.charToPos[i]]
  }

  predicate SpanOrder(idx: TextIndex)
  {
    forall i, j :: 0 <= i <= j < |idx.charToSpan| ==> idx.charToSpan[i] <= idx.charToSpan[j]
  }

  predicate CleanSpans(idx: TextIndex)
  {
    forall k :: 0 <= k < |idx.spans| ==>
      idx.spans[k].clean != [] && AllChars(idx.spans[k].clean, IsClean)
  }

  /** What `build_page_text_index` promises: parallel arrays of one length,
      each character owned by a stored span at the recorded offset, span
      numbers non-decreasing, every stored clean text non-empty and free of
      whitespace and invisible characters, and the page text the
      concatenation of the clean texts. */
  predicate WellFormedIndex(idx: TextIndex)
  {
    Aligned(idx) && Owned(idx) && SpanOrder(idx) && CleanSpans(idx) &&
    idx.pageClean == CleanConcat(idx.spans)
  }

  lemma CleanIsClean(text: string)
    ensures AllChars(RemoveWhitespace(StripInvisible(text)), IsClean)
  {
    var v := StripInvisible(text);
    var c := RemoveWhitespace(v);
    assert c == Keep(v, IsNotSpace);
    forall i | 0 <= i < |c| ensures IsClean(c[i]) {
      assert c[i] in multiset(c);
      KeepCounts(v, IsNotSpace);
      assert c[i] in multiset(v);
      assert IsVisible(c[i]) by {
        var j :| 0 <= j < |v| && v[j] == c[i];
      }
    }
  }

  lemma AddSpanKeeps(idx: TextIndex, sp: RawSpan)
    requires WellFormedIndex(idx)
    ensures WellFormedIndex(AddSpan(idx, sp))
  {
    var text := StripInvisible(sp.text);
    if text != [] {
      var clean := RemoveWhitespace(text);
      if clean != [] {
        var n := AddSpan(idx, sp);
        var k := |idx.spans|;
        var m := |idx.pageClean|;
        assert n.spans[k].clean == clean;
        assert n.spans[..k] == idx.spans;
        CleanIsClean(sp.text);
        forall i | 0 <= i < |n.pageClean|
          ensures n.charToSpan[i] < |n.spans|
          ensures n.charToPos[i] < |n.spans[n.charToSpan[i]].clean|
          ensures n.pageClean[i] == n.spans[n.charToSpan[i]].clean[n.charToPos[i]]
        {
          if i < m {
            assert n.charToSpan[i] == idx.charToSpan[i] && n.charToPos[i] == idx.charToPos[i];
            assert n.pageClean[i] == idx.pageClean[i];
            assert n.spans[idx.charToSpan[i]] == idx.spans[idx.charToSpan[i]];
          } else {
            assert n.charToSpan[i] == k && n.charToPos[i] == i - m;
            assert n.pageClean[i] == clean[i - m];
          }
        }
        forall i, j | 0 <= i <= j < |n.charToSpan|
          ensures n.charToSpan[i] <= n.charToSpan[j]
        {
          if j >= m {
            assert n.charToSpan[j] == k;
            if i < m {
              assert n.charToSpan[i] == idx.charToSpan[i];
            }
          } else {
            assert n.charToSpan[i] == idx.charToSpan[i] && n.charToSpan[j] == idx.charToSpan[j];
          }
        }
        forall q | 0 <= q < |n.spans|
          ensures n.spans[q].clean != [] && AllChars(n.spans[q].clean, IsClean)
        {
          if q < k {
            assert n.spans[q] == idx.spans[q];
          }
        }
      }
    }
  }

  lemma EmptyIndexWellFormed(e: TextIndex)
    requires e.spans == [] && e.pageClean == [] && e.charToSpan == [] && e.charToPos == []
    ensures WellFormedIndex(e)
  {
  }

  /** The index of any span list is well formed. */
  lemma {:induction false} PageTextIndexWellFormed(raw: seq<RawSpan>)
    ensures WellFormedIndex(PageTextIndex(raw))
  {
    if raw == [] {
      EmptyIndexWellFormed(PageTextIndex(raw));
    } else {
      var prev := PageTextIndex(raw[..|raw| - 1]);
      PageTextIndexWellFormed(raw[..|raw| - 1]);
      AddSpanKeeps(prev, raw[|raw| - 1]);
      assert PageTextIndex(raw) == AddSpan(prev, raw[|raw| - 1]);
    }
  }

  /** A span is indexed exactly when some character of it survives the
      removal of invisible characters and whitespace. */
  lemma AddSpanStores(idx: TextIndex, sp: RawSpan)
    ensures |AddSpan(idx, sp).spans| == |idx.spans| + (if RemoveWhitespace(StripInvisible(sp.text)) == [] then 0 else 1)
    ensures AddSpan(idx, sp).spans[..|idx.spans|] == idx.spans
    ensures var clean := RemoveWhitespace(StripInvisible(sp.text));
      clean != [] ==>
        && AddSpan(idx, sp).spans[|idx.spans|] == SpanRecord(sp.bbox, sp.text, clean)
        && AddSpan(idx, sp).pageClean == idx.pageClean + clean
    ensures RemoveWhitespace(StripInvisible(sp.text)) == [] ==> AddSpan(idx, sp) == idx
  {
    var text := StripInvisible(sp.text);
    if text == [] {
      assert Keep(text, IsNotSpace) == [];
    }
  }

  /** The raw texts of the spans, one after the other. */
  function RawText(raw: seq<RawSpan>): string
  {
    if raw == [] then [] else RawText(raw[..|raw| - 1]) + raw[|raw| - 1].text
  }

  /** The page's clean text is the text of all its spans with the invisible
      characters and the whitespace removed. */
  lemma {:induction false} PageCleanOfRaw(raw: seq<RawSpan>)
    ensures PageTextIndex(raw).pageClean == RemoveWhitespace(StripInvisible(RawText(raw)))
    decreases |raw|
  {
    if raw == [] {
      assert StripInvisible([]) == [];
    } else {
      var front := raw[..|raw| - 1];
      var sp := raw[|raw| - 1];
      PageCleanOfRaw(front);
      AddSpanStores(PageTextIndex(front), sp);
      StripInvisibleConcat(RawText(front), sp.text);
      KeepConcat(StripInvisible(RawText(front)), StripInvisible(sp.text), IsNotSpace);
    }
  }

  /** `build_page_text_index` (pdfconv.py:518-550), over the span list. */
  method BuildPageTextIndex(raw: seq<RawSpan>) returns (idx: TextIndex)
    ensures idx == PageTextIndex(raw)
    ensures WellFormedIndex(idx)
  {
    idx := TextIndex([], [], [], []);
    for k := 0 to |raw|
      invariant idx == PageTextIndex(raw[..k])
    {
      assert raw[..k + 1][..k] == raw[..k];
      idx := IndexSpan(idx, raw[k]);
    }
    assert raw[..|raw|] == raw;
    PageTextIndexWellFormed(raw);
  }

  /** One pass of the span loop of pdfconv.py:528-545. */
  method IndexSpan(idx: TextIndex, sp: RawSpan) returns (r: TextIndex)
    ensures r == AddSpan(idx, sp)
  {
    r := idx;
    var text := StripInvisible(sp.text);
    if text != [] {
      var clean := RemoveWhitespace(text);
      if clean != [] {
        var spans := idx.spans + [SpanRecord(sp.bbox, sp.text, clean)];
        var spanIdx := |spans| - 1;
        var parts, charToSpan, charToPos := AppendChars(idx.pageClean, idx.charToSpan, idx.charToPos, clean, spanIdx);
        r := TextIndex(spans, parts, charToSpan, charToPos);
      }
    }
  }

  /** The character loop of pdfconv.py:542-545: each character of the clean
      text is appended with its span number and its offset. */
  method AppendChars(parts: string, charToSpan: seq<nat>, charToPos: seq<nat>, clean: string, spanIdx: nat)
    returns (parts': string, charToSpan': seq<nat>, charToPos': seq<nat>)
    ensures parts' == parts + clean
    ensures charToSpan' == charToSpan + Repeat(spanIdx, |clean|)
    ensures charToPos' == charToPos + Range(|clean|)
  {
    parts', charToSpan', charToPos' := parts, charToSpan, charToPos;
    for pos := 0 to |clean|
      invariant parts' == parts + clean[..pos]
      invariant charToSpan' == charToSpan + Repeat(spanIdx, pos)
      invariant charToPos' == charToPos + Range(pos)
    {
      parts' := parts' + [clean[pos]];
      charToSpan' := charToSpan' + [spanIdx];
      charToPos' := charToPos' + [pos];
      assert clean[..pos + 1] == clean[..pos] + [clean[pos]];
      assert Repeat(spanIdx, pos + 1) == Repeat(spanIdx, pos) + [spanIdx];
      assert Range(pos + 1) == Range(pos) + [pos];
    }
    assert clean[..|clean|] == clean;
  }
}
