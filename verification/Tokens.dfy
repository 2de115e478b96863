/**
 * Token repair: normalize_placeholder_token, normalize_option_key and the
 * standalone clean_placeholder_text of pdfconv.py.
 */
module Tokens {
  import opened Wrappers
  import opened Text

  /** OPTION_KEYWORDS (pdfconv.py:34-54), in the order the repair loop visits them. */
  const OptionKeywords: seq<string> := [
    "value", "default", "options", "format", "tooltip", "width", "height",
    "rowheight", "cellwidth", "columnwidth", "label", "url", "data",
    "calculation", "validation", "multi", "checked", "required", "readonly"
  ]

  /** An index into OptionKeywords: what the fuzzy matcher may answer. */
  type KeywordIndex = i: nat | i < 19

  predicate IsLowerLetter(c: char) { 'a' <= c <= 'z' }

  /** A character that is neither whitespace nor invisible. */
  predicate IsClean(c: char) { !IsSpace(c) && !IsInvisible(c) }

  lemma KeywordsAreLowerLetters()
    ensures |OptionKeywords| == 19
    ensures forall k :: 0 <= k < 19 ==> AllChars(OptionKeywords[k], IsLowerLetter)
  {
  }

  // ---------------------------------------------------------------------
  // One keyword pass: `re.compile(rf'(?i){key}:').sub(...)`

  /** How `(?i)` compares a subject character with a lower-case ASCII pattern
      character in a str pattern: the letter in either case and, for `i`, `s`
      and `k`, also U+0130, U+0131, U+017F and U+212A. */
  predicate FoldEq(c: char, p: char) {
    || c == p
    || ('a' <= p <= 'z' && c == UpperChar(p))
    || (p == 'i' && (c == '\U{0130}' || c == '\U{0131}'))
    || (p == 's' && c == '\U{017F}')
    || (p == 'k' && c == '\U{212A}')
  }

  /** The case-insensitive pattern `pat` occurs in `s` at position `i`. */
  predicate MatchesAt(s: string, i: nat, pat: string) {
    i + |pat| <= |s| && forall j :: 0 <= j < |pat| ==> FoldEq(s[i + j], pat[j])
  }

  /** _prefix_option (pdfconv.py:256-264): the lower-case `kw:`, with a `|`
      in front unless the match starts the string or follows `|` or `:` of
      the string being rewritten. */
  function Rewritten(s: string, i: nat, kw: string): string
    requires i <= |s|
  {
    if i == 0 || s[i - 1] == '|' || s[i - 1] == ':' then kw + ":" else "|" + kw + ":"
  }

  /** The left-to-right, non-overlapping substitution of one keyword, from
      position `i` of `s` on. */
  function PassFrom(s: string, kw: string, i: nat): string
    requires i <= |s|
    decreases |s| - i
  {
    if i == |s| then []
    else if MatchesAt(s, i, kw + ":") then Rewritten(s, i, kw) + PassFrom(s, kw, i + |kw| + 1)
    else [s[i]] + PassFrom(s, kw, i + 1)
  }

  function KeywordPass(s: string, kw: string): string {
    PassFrom(s, kw, 0)
  }

  /** Where no character matches the keyword's first letter, a pass copies the input. */
  lemma {:induction false} PassCopies(s: string, kw: string, i: nat, j: nat)
    requires kw != [] && i <= j <= |s|
    requires forall m :: i <= m < j ==> !FoldEq(s[m], kw[0])
    ensures PassFrom(s, kw, i) == s[i..j] + PassFrom(s, kw, j)
    decreases j - i
  {
    if i < j {
      NoMatchAt(s, i, kw);
      PassCopies(s, kw, i + 1, j);
      CopyStep(s[i], s[i..j], s[i + 1..j], PassFrom(s, kw, j));
    }
  }

  lemma NoMatchAt(s: string, i: nat, kw: string)
    requires kw != [] && i < |s| && !FoldEq(s[i], kw[0])
    ensures !MatchesAt(s, i, kw + ":")
  {
    assert (kw + ":")[0] == kw[0];
    assert s[i + 0] == s[i];
  }

  lemma CopyStep(c: char, a: string, b: string, rest: string)
    requires a == [c] + b
    ensures [c] + (b + rest) == a + rest
  {
  }

  /** A pass writes only characters of its input, of the keyword, `|` and `:`. */
  lemma {:induction false} PassKeeps(s: string, kw: string, i: nat, p: char -> bool)
    requires i <= |s|
    requires AllChars(s, p) && AllChars(kw, p) && p('|') && p(':')
    ensures AllChars(PassFrom(s, kw, i), p)
    decreases |s| - i
  {
    if i < |s| {
      PassKeeps(s, kw, StepEnd(s, kw, i), p);
      KeepsStep(s, kw, i, p);
    }
  }

  lemma KeepsStep(s: string, kw: string, i: nat, p: char -> bool)
    requires i < |s|
    requires AllChars(s, p) && AllChars(kw, p) && p('|') && p(':')
    requires AllChars(PassFrom(s, kw, StepEnd(s, kw, i)), p)
    ensures AllChars(PassFrom(s, kw, i), p)
  {
    var j := StepEnd(s, kw, i);
    if MatchesAt(s, i, kw + ":") {
      assert AllChars(Rewritten(s, i, kw), p) by {
        AllCharsConcat(kw, ":", p);
        AllCharsConcat("|", kw + ":", p);
        assert "|" + kw + ":" == "|" + (kw + ":");
      }
      AllCharsConcat(Rewritten(s, i, kw), PassFrom(s, kw, j), p);
    } else {
      AllCharsConcat([s[i]], PassFrom(s, kw, j), p);
    }
  }

  /** Every case-insensitive occurrence of `kw:` in `t` is already the
      lower-case `kw:` and starts the string or follows `|` or `:`: a pass
      of `kw` has nothing left to change. */
  predicate Settled(t: string, kw: string) {
    forall p: nat :: p < |t| && MatchesAt(t, p, kw + ":") ==>
      t[p..p + |kw| + 1] == kw + ":" && (p == 0 || t[p - 1] == '|' || t[p - 1] == ':')
  }

  /** Where the step of the pass at `i` ends: past the occurrence it
      rewrites, or past the one character it copies. */
  function StepEnd(s: string, kw: string, i: nat): (j: nat)
    requires i < |s|
    ensures i < j <= |s|
  {
    if MatchesAt(s, i, kw + ":") then i + |kw| + 1 else i + 1
  }

  /** On settled text a pass is the identity. */
  lemma {:induction false} PassIdentity(s: string, kw: string, i: nat)
    requires i <= |s| && Settled(s, kw)
    ensures PassFrom(s, kw, i) == s[i..]
    decreases |s| - i
  {
    if i < |s| {
      PassIdentity(s, kw, StepEnd(s, kw, i));
      IdentityStep(s, kw, i);
    }
  }

  lemma IdentityStep(s: string, kw: string, i: nat)
    requires i < |s| && Settled(s, kw)
    requires PassFrom(s, kw, StepEnd(s, kw, i)) == s[StepEnd(s, kw, i)..]
    ensures PassFrom(s, kw, i) == s[i..]
  {
    var j := StepEnd(s, kw, i);
    if MatchesAt(s, i, kw + ":") {
      assert PassFrom(s, kw, i) == s[i..j] + s[j..] by {
        assert Rewritten(s, i, kw) == s[i..j];
      }
    }
    Cut(s[i..], j - i);
  }

  /** A keyword starts with a letter and ends its pattern with `:`; none of
      `|`, `:` and a letter stands for another under `(?i)`. */
  lemma FoldFacts(kw: string)
    requires AllChars(kw, IsLowerLetter)
    ensures forall c :: FoldEq(c, ':') ==> c == ':'
    ensures forall j :: 0 <= j < |kw| ==> !FoldEq('|', kw[j]) && !FoldEq(':', kw[j])
    ensures !FoldEq('|', ':')
  {
    forall j | 0 <= j < |kw| ensures !FoldEq('|', kw[j]) && !FoldEq(':', kw[j]) {
      assert IsLowerLetter(kw[j]);
    }
  }

  /** An occurrence further into `a + b` is an occurrence in `b`. */
  lemma MatchShift(a: string, b: string, q: nat, pat: string)
    ensures MatchesAt(a + b, |a| + q, pat) <==> MatchesAt(b, q, pat)
  {
    if |a| + q + |pat| <= |a + b| {
      assert forall k :: |a| <= k < |a + b| ==> (a + b)[k] == b[k - |a|];
    }
  }

  lemma SliceShift(a: string, b: string, q: nat, n: nat)
    requires q + n <= |b|
    ensures (a + b)[|a| + q..|a| + q + n] == b[q..q + n]
  {
    var l := (a + b)[|a| + q..|a| + q + n];
    var r := b[q..q + n];
    assert forall k :: 0 <= k < n ==> l[k] == r[k];
  }

  /** A match at the front of `[c] + t` is `c` and a match of the rest at the front of `t`. */
  lemma MatchCons(c: char, t: string, pat: string)
    requires |pat| > 1
    ensures MatchesAt([c] + t, 0, pat) <==> FoldEq(c, pat[0]) && MatchesAt(t, 0, pat[1..])
  {
    var u := [c] + t;
    assert forall j :: 0 < j < |u| ==> u[j] == t[j - 1];
    if FoldEq(c, pat[0]) && MatchesAt(t, 0, pat[1..]) {
      forall j | 0 <= j < |pat| ensures FoldEq(u[j], pat[j]) {
        if j > 0 {
          assert pat[1..][j - 1] == pat[j];
        }
      }
    }
    if MatchesAt(u, 0, pat) {
      forall j | 0 <= j < |pat| - 1 ensures FoldEq(t[j], pat[1..][j]) {
        assert u[j + 1] == t[j];
      }
    }
  }

  /** The output of a pass can only begin with a proper tail of `kw:` where
      the input already did: the pass never writes the letters of such a
      tail in front of its `:`. */
  lemma {:induction false} PassPrefix(s: string, kw: string, j: nat, r: nat)
    requires AllChars(kw, IsLowerLetter) && j <= |s| && 0 < r <= |kw|
    requires MatchesAt(PassFrom(s, kw, j), 0, (kw + ":")[r..])
    ensures MatchesAt(s, j, (kw + ":")[r..])
    decreases |s| - j
  {
    var pat := kw + ":";
    var q := pat[r..];
    var o := PassFrom(s, kw, j);
    FoldFacts(kw);
    assert q[|q| - 1] == ':';
    if j == |s| {
      assert false;
    } else if MatchesAt(s, j, pat) {
      assert false;
    } else {
      var o' := PassFrom(s, kw, j + 1);
      assert o == [s[j]] + o';
      if |q| == 1 {
        assert FoldEq(o[0], q[0]);
      } else {
        MatchCons(s[j], o', q);
        assert q[1..] == pat[r + 1..];
        PassPrefix(s, kw, j + 1, r + 1);
        assert MatchesAt(s, j + 1, q[1..]);
        forall m | 0 <= m < |q| ensures FoldEq(s[j + m], q[m]) {
          if m > 0 {
            assert q[1..][m - 1] == q[m];
          }
        }
      }
    }
  }

  /** What a pass from position `i` on guarantees about every occurrence of
      `kw:` in what it writes: it is the lower-case `kw:` and it follows `|`
      or `:`, where at the very front the character before is `s[i - 1]`. */
  predicate SettledFrom(s: string, kw: string, i: nat)
    requires i <= |s|
  {
    var o := PassFrom(s, kw, i);
    forall p: nat :: p < |o| && MatchesAt(o, p, kw + ":") ==>
      && o[p..p + |kw| + 1] == kw + ":"
      && (if p == 0 then i == 0 || s[i - 1] == '|' || s[i - 1] == ':' else o[p - 1] == '|' || o[p - 1] == ':')
  }

  lemma {:induction false} PassSettlesFrom(s: string, kw: string, i: nat)
    requires kw != [] && AllChars(kw, IsLowerLetter) && i <= |s|
    ensures SettledFrom(s, kw, i)
    decreases |s| - i
  {
    if i < |s| {
      PassSettlesFrom(s, kw, StepEnd(s, kw, i));
      SettlesStep(s, kw, i);
    }
  }

  lemma SettlesStep(s: string, kw: string, i: nat)
    requires kw != [] && AllChars(kw, IsLowerLetter) && i < |s|
    requires SettledFrom(s, kw, StepEnd(s, kw, i))
    ensures SettledFrom(s, kw, i)
  {
    if MatchesAt(s, i, kw + ":") {
      RewrittenSettles(s, kw, i);
    } else {
      CopySettles(s, kw, i);
    }
  }

  /** The step of `PassSettlesFrom` where the pass rewrites an occurrence at `i`. */
  lemma RewrittenSettles(s: string, kw: string, i: nat)
    requires kw != [] && AllChars(kw, IsLowerLetter) && i < |s|
    requires MatchesAt(s, i, kw + ":") && SettledFrom(s, kw, i + |kw| + 1)
    ensures SettledFrom(s, kw, i)
  {
    var pat := kw + ":";
    var seg := Rewritten(s, i, kw);
    var o' := PassFrom(s, kw, i + |kw| + 1);
    var o := PassFrom(s, kw, i);
    assert o == seg + o';
    forall p: nat | p < |o| && MatchesAt(o, p, pat)
      ensures o[p..p + |pat|] == pat
      ensures if p == 0 then i == 0 || s[i - 1] == '|' || s[i - 1] == ':' else o[p - 1] == '|' || o[p - 1] == ':'
    {
      if p >= |seg| {
        MatchAfterSegment(s, kw, i, p);
      } else {
        MatchInSegment(s, kw, i, p);
      }
    }
  }

  /** An occurrence past the rewritten segment is one the rest of the pass wrote. */
  lemma MatchAfterSegment(s: string, kw: string, i: nat, p: nat)
    requires kw != [] && AllChars(kw, IsLowerLetter) && i < |s|
    requires MatchesAt(s, i, kw + ":") && SettledFrom(s, kw, i + |kw| + 1)
    requires |Rewritten(s, i, kw)| <= p < |PassFrom(s, kw, i)| && MatchesAt(PassFrom(s, kw, i), p, kw + ":")
    ensures PassFrom(s, kw, i)[p..p + |kw| + 1] == kw + ":"
    ensures PassFrom(s, kw, i)[p - 1] == '|' || PassFrom(s, kw, i)[p - 1] == ':'
  {
    var seg := Rewritten(s, i, kw);
    var o' := PassFrom(s, kw, i + |kw| + 1);
    assert PassFrom(s, kw, i) == seg + o';
    AfterSegment(seg, o', kw, p);
  }

  /** In `seg + o`, an occurrence inside `o` is settled when the occurrences
      of `o` itself are and, for one at the front of `o`, `seg` ends in `|` or `:`. */
  lemma AfterSegment(seg: string, o: string, kw: string, p: nat)
    requires seg != []
    requires forall q: nat :: q < |o| && MatchesAt(o, q, kw + ":") ==>
      o[q..q + |kw| + 1] == kw + ":" && (q > 0 ==> o[q - 1] == '|' || o[q - 1] == ':')
    requires o != [] && MatchesAt(o, 0, kw + ":") ==> seg[|seg| - 1] == '|' || seg[|seg| - 1] == ':'
    requires |seg| <= p < |seg + o| && MatchesAt(seg + o, p, kw + ":")
    ensures (seg + o)[p..p + |kw| + 1] == kw + ":"
    ensures (seg + o)[p - 1] == '|' || (seg + o)[p - 1] == ':'
  {
    var q := p - |seg|;
    MatchShift(seg, o, q, kw + ":");
    SliceShift(seg, o, q, |kw| + 1);
    if q > 0 {
      assert (seg + o)[p - 1] == o[q - 1];
    }
  }

  /** An occurrence that starts inside the rewritten segment is the segment's own `kw:`. */
  lemma MatchInSegment(s: string, kw: string, i: nat, p: nat)
    requires kw != [] && AllChars(kw, IsLowerLetter) && i < |s|
    requires MatchesAt(s, i, kw + ":")
    requires p < |Rewritten(s, i, kw)| && MatchesAt(PassFrom(s, kw, i), p, kw + ":")
    ensures PassFrom(s, kw, i)[p..p + |kw| + 1] == kw + ":"
    ensures if p == 0 then i == 0 || s[i - 1] == '|' || s[i - 1] == ':'
      else PassFrom(s, kw, i)[p - 1] == '|' || PassFrom(s, kw, i)[p - 1] == ':'
  {
    var pat := kw + ":";
    var seg := Rewritten(s, i, kw);
    var rest := PassFrom(s, kw, i + |kw| + 1);
    var o := PassFrom(s, kw, i);
    assert o == seg + rest;
    OnlySegmentMatches(seg, rest, kw);
    var off := |seg| - |pat|;
    assert p == off;
    assert seg[off..] == pat;
    assert o[p..p + |pat|] == seg[off..];
    assert p > 0 ==> o[p - 1] == '|';
  }

  /** Inside a rewritten segment `kw:` or `|kw:` the only occurrence of
      `kw:` is the segment's own. */
  lemma OnlySegmentMatches(seg: string, rest: string, kw: string)
    requires kw != [] && AllChars(kw, IsLowerLetter)
    requires seg == kw + ":" || seg == "|" + kw + ":"
    ensures forall p: nat :: p < |seg| && p != |seg| - |kw| - 1 ==> !MatchesAt(seg + rest, p, kw + ":")
  {
    var pat := kw + ":";
    var u := seg + rest;
    var off := |seg| - |pat|;
    FoldFacts(kw);
    forall p: nat | p < |seg| && p != off
      ensures !MatchesAt(u, p, pat)
    {
      if p < off {
        assert u[p] == '|';
        assert !FoldEq(u[p + 0], pat[0]);
      } else {
        var m := |seg| - 1 - p;
        assert m < |kw| && pat[m] == kw[m];
        assert u[p + m] == seg[|seg| - 1] == ':';
        assert !FoldEq(u[p + m], pat[m]);
      }
    }
  }

  /** The step of `PassSettlesFrom` where the pass copies `s[i]`. */
  lemma CopySettles(s: string, kw: string, i: nat)
    requires kw != [] && AllChars(kw, IsLowerLetter) && i < |s|
    requires !MatchesAt(s, i, kw + ":") && SettledFrom(s, kw, i + 1)
    ensures SettledFrom(s, kw, i)
  {
    var pat := kw + ":";
    var o' := PassFrom(s, kw, i + 1);
    var o := PassFrom(s, kw, i);
    assert o == [s[i]] + o';
    NoFreshMatch(s, kw, i);
    forall p: nat | 0 < p < |o| && MatchesAt(o, p, pat)
      ensures o[p..p + |pat|] == pat && (o[p - 1] == '|' || o[p - 1] == ':')
    {
      AfterSegment([s[i]], o', kw, p);
    }
  }

  /** Where the input has no occurrence, a copying step does not make one. */
  lemma NoFreshMatch(s: string, kw: string, i: nat)
    requires kw != [] && AllChars(kw, IsLowerLetter) && i < |s|
    requires !MatchesAt(s, i, kw + ":")
    ensures !MatchesAt(PassFrom(s, kw, i), 0, kw + ":")
  {
    var pat := kw + ":";
    var o' := PassFrom(s, kw, i + 1);
    assert PassFrom(s, kw, i) == [s[i]] + o';
    if MatchesAt([s[i]] + o', 0, pat) {
      MatchCons(s[i], o', pat);
      PassPrefix(s, kw, i + 1, 1);
    }
  }

  /** After the pass of `kw` the text is settled for `kw`. */
  lemma PassSettles(s: string, kw: string)
    requires kw != [] && AllChars(kw, IsLowerLetter)
    ensures Settled(KeywordPass(s, kw), kw)
  {
    PassSettlesFrom(s, kw, 0);
  }

  /** On text settled for the first `n` keywords the first `n` passes change nothing. */
  lemma {:induction false} ApplyKeywordsIdentity(t: string, n: nat)
    requires n <= |OptionKeywords|
    requires forall k :: 0 <= k < n ==> Settled(t, OptionKeywords[k])
    ensures ApplyKeywords(t, n) == t
  {
    if n > 0 {
      ApplyKeywordsIdentity(t, n - 1);
      PassIdentity(t, OptionKeywords[n - 1], 0);
    }
  }

  /** The first `n` passes of the loop at pdfconv.py:266-268. */
  function ApplyKeywords(t: string, n: nat): string
    requires n <= |OptionKeywords|
  {
    if n == 0 then t else KeywordPass(ApplyKeywords(t, n - 1), OptionKeywords[n - 1])
  }

  lemma {:induction false} ApplyKeywordsKeeps(t: string, n: nat)
    requires n <= |OptionKeywords|
    requires AllChars(t, IsClean)
    ensures AllChars(ApplyKeywords(t, n), IsClean)
  {
    if n > 0 {
      ApplyKeywordsKeeps(t, n - 1);
      KeywordsAreLowerLetters();
      var kw := OptionKeywords[n - 1];
      assert AllChars(kw, IsLowerLetter);
      assert AllChars(kw, IsClean);
      PassKeeps(ApplyKeywords(t, n - 1), kw, 0, IsClean);
    }
  }

  /** Only a `width:` written directly before its colon is split: with a
      stray character between the keyword and `:` the "width" pass copies
      `cellwidth-:1` unchanged. */
  lemma StrayPunctuationNotSplit()
    ensures KeywordPass("cellwidth-:1", "width") == "cellwidth-:1"
  {
    var s := "cellwidth-:1";
    StrayPunctuationTail(s);
    PassCopies(s, "width", 0, 4);
    assert s == s[0..4] + s[4..];
  }

  /** From the `w` of `width-:1` on, the "width" pass copies. */
  lemma StrayPunctuationTail(s: string)
    requires s == "cellwidth-:1"
    ensures PassFrom(s, "width", 4) == s[4..]
  {
    var kw := "width";
    assert !MatchesAt(s, 4, kw + ":") by {
      assert (kw + ":")[5] == ':' && s[9] == '-';
    }
    assert PassFrom(s, kw, 12) == [];
    PassCopies(s, kw, 5, 12);
    assert s[4..] == [s[4]] + s[5..12] + [];
  }

  /** A keyword followed by one stray punctuation character, such as the
      unsplit `cellwidth-` above, is repaired to the keyword by the trim of
      pdfconv.py:286-287, whatever the fuzzy matcher would say. */
  lemma TrailingPunctuationTrimmed(kw: string, c: char, closest: string -> Option<KeywordIndex>)
    requires kw in OptionKeywords
    requires IsNotLowerAlnum(c) && IsVisible(c) && !IsSpace(c) && IsNotUpper(c)
    ensures NormalizeOptionKey(kw + [c], closest) == Some(kw)
  {
    KeywordsAreLowerLetters();
    var k :| 0 <= k < 19 && OptionKeywords[k] == kw;
    assert AllChars(kw, IsLowerLetter);
    PunctuatedBase(kw, c);
    assert (kw + [c])[|kw|] == c;
    TrimTrailing(kw, c);
  }

  /** The base form of a word of lower-case letters with one visible,
      non-space punctuation character after it is the text itself. */
  lemma PunctuatedBase(w: string, c: char)
    requires AllChars(w, IsLowerLetter)
    requires IsNotLowerAlnum(c) && IsVisible(c) && !IsSpace(c) && IsNotUpper(c)
    ensures KeyBase(w + [c]) == w + [c]
  {
    var key := w + [c];
    forall i | 0 <= i < |key|
      ensures IsVisible(key[i]) && IsNotUpper(key[i]) && !IsSpace(key[i])
    {
      if i < |w| {
        assert key[i] == w[i] && IsLowerLetter(w[i]);
      }
    }
    StripInvisibleIdentity(key);
    LowerIdentity(key);
    StripNoneOf(key, IsSpace);
  }

  /** The trim of pdfconv.py:286-287 drops one trailing character outside
      `[a-z0-9]` after a word made of letters. */
  lemma TrimTrailing(w: string, c: char)
    requires AllChars(w, IsLowerLetter) && IsNotLowerAlnum(c)
    ensures TrimKey(w + [c]) == w
  {
    var key := w + [c];
    assert key[..|w|] == w;
    if w == [] {
      assert LeadingDropped(key, IsNotLowerAlnum) == 1;
    } else {
      assert !IsNotLowerAlnum(key[0]) by { assert key[0] == w[0] && IsLowerLetter(w[0]); }
      assert LStrip(key, IsNotLowerAlnum) == key;
      assert !IsNotLowerAlnum(w[|w| - 1]) by { assert IsLowerLetter(w[|w| - 1]); }
      assert TrailingDropped(key, IsNotLowerAlnum) == TrailingDropped(w, IsNotLowerAlnum) == |w|;
    }
  }

  /** "width" is visited before "cellwidth", so the "width" pass already
      splits a well-formed `cellwidth:` key into `cell|width:`. */
  lemma CellwidthIsSplit()
    ensures KeywordPass("cellwidth:1", "width") == "cell|width:1"
  {
    var s := "cellwidth:1";
    var kw := "width";
    var pat := kw + ":";
    assert PassFrom(s, kw, 4) == "|width:1" by {
      assert PassFrom(s, kw, 11) == [];
      assert !MatchesAt(s, 10, pat);
      assert PassFrom(s, kw, 10) == "1";
      assert MatchesAt(s, 4, pat) by {
        assert s[4..10] == "width:";
      }
    }
    assert pat[0] == 'w';
    assert PassFrom(s, kw, 0) == "cell" + PassFrom(s, kw, 4) by {
      assert s[..4] == "cell";
      PassCopies(s, kw, 0, 4);
    }
  }

  /** A keyword in any case is written in lower case, and no second `|` is
      added after an existing one. */
  lemma KeywordIsLowered()
    ensures KeywordPass("x|VALUE:1", "value") == "x|value:1"
  {
    var s := "x|VALUE:1";
    var kw := "value";
    var pat := kw + ":";
    assert pat[0] == 'v';
    assert PassFrom(s, kw, 9) == [];
    assert !MatchesAt(s, 8, pat);
    assert PassFrom(s, kw, 8) == "1";
    assert MatchesAt(s, 2, pat) by {
      assert s[2..8] == "VALUE:";
      assert forall j :: 0 <= j < |pat| ==> FoldEq(s[2 + j], pat[j]);
    }
    assert PassFrom(s, kw, 2) == "value:1";
    assert !MatchesAt(s, 1, pat) by { assert !FoldEq(s[1], pat[0]); }
    assert !MatchesAt(s, 0, pat) by { assert !FoldEq(s[0], pat[0]); }
    assert PassFrom(s, kw, 1) == "|value:1";
  }

  // ---------------------------------------------------------------------
  // `re.sub(r'\|{2,}', '|', token)`

  predicate IsNotPipe(c: char) { c != '|' }

  /** Every run of pipes shrinks to a single pipe. */
  function CollapsePipes(s: string): (r: string)
    ensures |s| > 0 ==> |r| > 0 && r[0] == s[0]
    ensures NoDoublePipe(r)
    ensures Keep(r, IsNotPipe) == Keep(s, IsNotPipe)
  {
    if |s| <= 1 then s
    else if s[0] == '|' && s[1] == '|' then CollapsePipes(s[1..])
    else
      var rest := CollapsePipes(s[1..]);
      assert ([s[0]] + rest)[1..] == rest;
      [s[0]] + rest
  }

  /** A string without `||` passes the collapse unchanged. */
  lemma {:induction false} CollapseIdentity(s: string)
    requires NoDoublePipe(s)
    ensures CollapsePipes(s) == s
  {
    if |s| > 1 {
      NoDoublePipeSlice(s, 1, |s|);
      CollapseIdentity(s[1..]);
    }
  }

  /** `n` pipes in a row. */
  function Pipes(n: nat): (r: string)
    ensures |r| == n && AllChars(r, IsPipe)
  {
    if n == 0 then [] else "|" + Pipes(n - 1)
  }

  /** A run of pipes in front of a string that does not start with one
      becomes a single pipe. */
  lemma {:induction false} CollapseLeadingRun(n: nat, y: string)
    requires n >= 1 && (y == [] || y[0] != '|')
    ensures CollapsePipes(Pipes(n) + y) == "|" + CollapsePipes(y)
  {
    var s := Pipes(n) + y;
    if n == 1 {
      assert s == "|" + y;
      if y != [] {
        assert s[1..] == y;
      }
    } else {
      assert s[0] == '|' && s[1] == Pipes(n - 1)[0];
      assert s[1..] == Pipes(n - 1) + y;
      CollapseLeadingRun(n - 1, y);
    }
  }

  /** A whole run of pipes between two pieces that neither end nor start
      with a pipe shrinks to one pipe, and the pieces are collapsed on their own. */
  lemma {:induction false} CollapseRun(x: string, n: nat, y: string)
    requires n >= 1 && (x == [] || x[|x| - 1] != '|') && (y == [] || y[0] != '|')
    ensures CollapsePipes(x + Pipes(n) + y) == CollapsePipes(x) + "|" + CollapsePipes(y)
    decreases |x|
  {
    var py := Pipes(n) + y;
    if x == [] {
      assert x + Pipes(n) + y == py;
      CollapseLeadingRun(n, y);
    } else if |x| == 1 {
      assert x + Pipes(n) + y == [x[0]] + py;
      CollapseStep(x[0], py);
      CollapseLeadingRun(n, y);
    } else {
      var x' := x[1..];
      var t := x' + Pipes(n) + y;
      assert x + Pipes(n) + y == [x[0]] + t;
      assert x == [x[0]] + x';
      assert t[0] == x'[0];
      CollapseRun(x', n, y);
      CollapseStep(x[0], t);
      CollapseStep(x[0], x');
      var r := CollapsePipes(x');
      if !(x[0] == '|' && x'[0] == '|') {
        ConsAssoc(x[0], r, "|", CollapsePipes(y));
      }
    }
  }

  lemma ConsAssoc(c: char, a: string, b: string, d: string)
    ensures [c] + (a + b + d) == [c] + a + b + d
  {
  }

  /** One step of the collapse: a pipe before a pipe goes, anything else stays. */
  lemma CollapseStep(c: char, t: string)
    ensures t != [] && c == '|' && t[0] == '|' ==> CollapsePipes([c] + t) == CollapsePipes(t)
    ensures !(t != [] && c == '|' && t[0] == '|') ==> CollapsePipes([c] + t) == [c] + CollapsePipes(t)
  {
    assert ([c] + t)[1..] == t;
  }

  lemma {:induction false} CollapseKeeps(s: string, p: char -> bool)
    requires AllChars(s, p)
    ensures AllChars(CollapsePipes(s), p)
  {
    if |s| > 1 {
      CollapseKeeps(s[1..], p);
    }
  }

  // ---------------------------------------------------------------------
  // normalize_placeholder_token (pdfconv.py:245-274)

  /** Lines 252-254: invisible characters out, the string stripped of
      whitespace and then of `{}[]()`, and every whitespace character removed. */
  function Prepare(token: string): string {
    RemoveWhitespace(Strip(Strip(StripInvisible(token), IsSpace), IsBracket))
  }

  /** Line 273: `token.strip('|').strip()` */
  function Finish(t: string): string {
    Strip(Strip(t, IsPipe), IsSpace)
  }

  /** The whole repair as a function of the raw token. */
  function NormalizeToken(token: string): string {
    if token == [] then []
    else Finish(CollapsePipes(ApplyKeywords(Prepare(token), |OptionKeywords|)))
  }

  method NormalizePlaceholderToken(token: string) returns (r: string)
    ensures r == NormalizeToken(token)
  {
    if token == [] {
      return token;
    }
    var t := Prepare(token);
    ghost var prepared := t;
    for k := 0 to |OptionKeywords|
      invariant t == ApplyKeywords(prepared, k)
    {
      t := KeywordPass(t, OptionKeywords[k]);
    }
    t := CollapsePipes(t);
    r := Finish(t);
  }

  /** Keep never introduces a character: whatever held of all characters still holds. */
  lemma {:induction false} KeepKeeps(s: string, p: char -> bool, q: char -> bool)
    requires AllChars(s, q)
    ensures AllChars(Keep(s, p), q)
  {
    if s != [] {
      KeepKeeps(s[1..], p, q);
    }
  }

  lemma PrepareIsClean(token: string)
    ensures AllChars(Prepare(token), IsClean)
  {
    var a := StripInvisible(token);
    StripKeeps(a, IsSpace, IsVisible);
    StripKeeps(Strip(a, IsSpace), IsBracket, IsVisible);
    var b := Strip(Strip(a, IsSpace), IsBracket);
    KeepKeeps(b, IsNotSpace, IsVisible);
  }

  /** A slice of a string without `||` has none either. */
  lemma NoDoublePipeSlice(s: string, a: nat, b: nat)
    requires NoDoublePipe(s) && a <= b <= |s|
    ensures NoDoublePipe(s[a..b])
  {
    var t := s[a..b];
    forall i | 0 <= i < |t| - 1
      ensures !(t[i] == '|' && t[i + 1] == '|')
    {
      assert t[i] == s[a + i] && t[i + 1] == s[a + i + 1];
    }
  }

  /**
   * For a non-empty raw token the repaired token has no whitespace, none of
   * the invisible characters, no `||`, and neither starts nor ends with `|`;
   * an empty token is returned unchanged.
   */
  lemma NormalizedIsClean(token: string)
    ensures token == [] ==> NormalizeToken(token) == token
    ensures AllChars(NormalizeToken(token), IsNotSpace)
    ensures AllChars(NormalizeToken(token), IsVisible)
    ensures NoDoublePipe(NormalizeToken(token))
    ensures var r := NormalizeToken(token); r == [] || (r[0] != '|' && r[|r| - 1] != '|')
  {
    if token != [] {
      var p := Prepare(token);
      PrepareIsClean(token);
      ApplyKeywordsKeeps(p, |OptionKeywords|);
      var c := CollapsePipes(ApplyKeywords(p, |OptionKeywords|));
      CollapseKeeps(ApplyKeywords(p, |OptionKeywords|), IsClean);
      var s := Strip(c, IsPipe);
      var a, b := StripSlice(c, IsPipe);
      NoDoublePipeSlice(c, a, b);
      StripKeeps(c, IsPipe, IsClean);
      assert AllChars(s, IsClean);
      StripNoneOf(s, IsSpace);
      assert NormalizeToken(token) == s;
    }
  }

  /**
   * A token that is already well formed comes back as itself without its
   * whitespace: no invisible character, neither end of the whitespace-free
   * token a bracket or `|`, no `||`, and every keyword already settled.
   */
  lemma NormalizeCleanToken(t: string)
    requires AllChars(t, IsVisible)
    requires var w := RemoveWhitespace(t);
      && w != [] && !IsBracket(w[0]) && !IsBracket(w[|w| - 1]) && w[0] != '|' && w[|w| - 1] != '|'
      && NoDoublePipe(w)
      && forall k :: 0 <= k < |OptionKeywords| ==> Settled(w, OptionKeywords[k])
    ensures NormalizeToken(t) == RemoveWhitespace(t)
  {
    var w := RemoveWhitespace(t);
    PrepareVisible(t);
    ApplyKeywordsIdentity(w, |OptionKeywords|);
    FinishClean(w);
  }

  /** Line 252-254 on a visible token whose whitespace-free form does not
      start or end with a bracket: only the whitespace goes. */
  lemma PrepareVisible(t: string)
    requires AllChars(t, IsVisible)
    requires var w := RemoveWhitespace(t); w != [] ==> !IsBracket(w[0]) && !IsBracket(w[|w| - 1])
    ensures Prepare(t) == RemoveWhitespace(t)
  {
    StripInvisibleIdentity(t);
    StripThenRemove(t);
    StripNothing(Strip(t, IsSpace), IsBracket);
  }

  /** Lines 271-273 on a whitespace-free token without `||` whose ends are not `|`. */
  lemma FinishClean(w: string)
    requires AllChars(w, IsNotSpace) && NoDoublePipe(w)
    requires w != [] ==> w[0] != '|' && w[|w| - 1] != '|'
    ensures Finish(CollapsePipes(w)) == w
  {
    CollapseIdentity(w);
    StripNothing(w, IsPipe);
    StripNoneOf(w, IsSpace);
  }

  // ---------------------------------------------------------------------
  // normalize_option_key (pdfconv.py:277-296)

  /** Line 283: `strip_invisible(key).lower().strip()` */
  function KeyBase(key: string): string {
    Strip(Lower(StripInvisible(key)), IsSpace)
  }

  /** Lines 286-287: leading and trailing characters outside `[a-z0-9]` removed. */
  function TrimKey(base: string): string {
    Strip(base, IsNotLowerAlnum)
  }

  /** The one-character prefixes of line 290. */
  predicate IsStrayPrefix(c: char) { c == 'i' || c == 'l' || c == '1' || c == 'j' }

  /**
   * The layered key repair. `closest` stands for
   * `difflib.get_close_matches(base, OPTION_KEYWORDS, n=1, cutoff=0.72)`; by
   * its type it answers a keyword or nothing.
   */
  function NormalizeOptionKey(key: string, closest: string -> Option<KeywordIndex>): (r: Option<string>)
    ensures r.None? <==> key == []
    ensures key != [] && KeyBase(key) in OptionKeywords ==> r == Some(KeyBase(key))
    ensures key != [] && KeyBase(key) !in OptionKeywords && TrimKey(KeyBase(key)) in OptionKeywords
            ==> r == Some(TrimKey(KeyBase(key)))
    ensures var t := TrimKey(KeyBase(key));
            key != [] && KeyBase(key) !in OptionKeywords && t !in OptionKeywords && t != [] && IsStrayPrefix(t[0]) && t[1..] in OptionKeywords
            ==> r == Some(t[1..])
    ensures r.Some? ==> r.value in OptionKeywords || r.value == TrimKey(KeyBase(key))
  {
    if key == [] then None
    else
      var base := KeyBase(key);
      if base in OptionKeywords then Some(base)
      else
        var t := TrimKey(base);
        if t in OptionKeywords then Some(t)
        else if t != [] && IsStrayPrefix(t[0]) && t[1..] in OptionKeywords then Some(t[1..])
        else match closest(t)
          case Some(k) => Some(OptionKeywords[k])
          case None => Some(t)
  }

  predicate IsNotUpper(c: char) { !('A' <= c <= 'Z') }

  lemma LowerKeepsVisible(s: string)
    requires AllChars(s, IsVisible)
    ensures AllChars(Lower(s), IsVisible)
  {
    forall i | 0 <= i < |s| ensures IsVisible(Lower(s)[i]) {
      assert Lower(s)[i] == LowerChar(s[i]);
    }
  }

  lemma LowerIdentity(s: string)
    requires AllChars(s, IsNotUpper)
    ensures Lower(s) == s
  {
  }

  /** A lower-case letter is visible, not whitespace and not upper case. */
  lemma LettersAreClean(s: string)
    requires AllChars(s, IsLowerLetter)
    ensures AllChars(s, IsVisible) && AllChars(s, IsNotUpper)
    ensures forall i :: 0 <= i < |s| ==> !IsSpace(s[i])
  {
    forall i | 0 <= i < |s|
      ensures IsVisible(s[i]) && IsNotUpper(s[i]) && !IsSpace(s[i])
    {
      assert IsLowerLetter(s[i]);
    }
  }

  /** A keyword is its own key base. */
  lemma KeywordIsOwnBase(kw: string)
    requires kw in OptionKeywords
    ensures KeyBase(kw) == kw
  {
    KeywordsAreLowerLetters();
    var k :| 0 <= k < 19 && OptionKeywords[k] == kw;
    assert AllChars(kw, IsLowerLetter);
    LettersAreClean(kw);
    StripInvisibleIdentity(kw);
    LowerIdentity(kw);
    StripNoneOf(kw, IsSpace);
  }

  lemma AlnumIsNotSpace(c: char)
    requires IsLowerAlnum(c)
    ensures !IsSpace(c)
  {
  }

  /** A repaired key is repaired to itself: the repair is idempotent. */
  lemma NormalizeOptionKeyIdempotent(key: string, closest: string -> Option<KeywordIndex>)
    requires NormalizeOptionKey(key, closest).Some? && NormalizeOptionKey(key, closest).value != []
    ensures NormalizeOptionKey(NormalizeOptionKey(key, closest).value, closest) == NormalizeOptionKey(key, closest)
  {
    var v := NormalizeOptionKey(key, closest).value;
    if v in OptionKeywords {
      KeywordIsOwnBase(v);
    } else {
      var base := KeyBase(key);
      var t := TrimKey(base);
      assert v == t;
      // every character of t comes from the lower-cased, visible base
      var si := StripInvisible(key);
      var lo := Lower(si);
      LowerKeepsVisible(si);
      StripKeeps(lo, IsSpace, IsVisible);
      StripKeeps(lo, IsSpace, IsNotUpper);
      StripKeeps(base, IsNotLowerAlnum, IsVisible);
      StripKeeps(base, IsNotLowerAlnum, IsNotUpper);
      StripInvisibleIdentity(t);
      LowerIdentity(t);
      assert IsLowerAlnum(t[0]) && IsLowerAlnum(t[|t| - 1]);
      AlnumIsNotSpace(t[0]);
      AlnumIsNotSpace(t[|t| - 1]);
      StripNothing(t, IsSpace);
      assert KeyBase(t) == t;
      StripNothing(t, IsNotLowerAlnum);
      assert TrimKey(t) == t;
    }
  }

  lemma AlnumsAreClean(s: string)
    requires AllChars(s, IsLowerAlnum)
    ensures AllChars(s, IsVisible) && AllChars(s, IsNotUpper)
    ensures forall i :: 0 <= i < |s| ==> !IsSpace(s[i]) && !IsNotLowerAlnum(s[i])
  {
    forall i | 0 <= i < |s|
      ensures IsVisible(s[i]) && IsNotUpper(s[i]) && !IsSpace(s[i]) && !IsNotLowerAlnum(s[i])
    {
      assert IsLowerAlnum(s[i]);
    }
  }

  /** A key of lower-case letters and digits is its own base and its own trim. */
  lemma AlnumKeyIsOwnTrim(key: string)
    requires AllChars(key, IsLowerAlnum)
    ensures KeyBase(key) == key && TrimKey(key) == key
  {
    AlnumsAreClean(key);
    StripInvisibleIdentity(key);
    LowerIdentity(key);
    StripNoneOf(key, IsSpace);
    StripNoneOf(key, IsNotLowerAlnum);
  }

  /** A keyword behind one stray `i`, `l`, `1` or `j` (a misread `|`) is
      recovered whatever the fuzzy matcher would say. */
  lemma StrayPrefixDropped(c: char, kw: string, closest: string -> Option<KeywordIndex>)
    requires IsStrayPrefix(c) && kw in OptionKeywords && [c] + kw !in OptionKeywords
    ensures NormalizeOptionKey([c] + kw, closest) == Some(kw)
  {
    var key := [c] + kw;
    KeywordsAreLowerLetters();
    var k :| 0 <= k < 19 && OptionKeywords[k] == kw;
    assert AllChars(kw, IsLowerLetter);
    assert AllChars(key, IsLowerAlnum) by {
      forall i | 0 <= i < |key| ensures IsLowerAlnum(key[i]) {
        if i > 0 {
          assert key[i] == kw[i - 1] && IsLowerLetter(kw[i - 1]);
        }
      }
    }
    AlnumKeyIsOwnTrim(key);
    assert key[1..] == kw;
  }

  /** An unknown key that is already clean and that the fuzzy matcher does not
      place is kept as it is, so newer option names pass through. */
  lemma UnknownKeyKept(key: string, closest: string -> Option<KeywordIndex>)
    requires key != [] && AllChars(key, IsLowerAlnum) && key !in OptionKeywords
    requires IsStrayPrefix(key[0]) ==> key[1..] !in OptionKeywords
    requires closest(key).None?
    ensures NormalizeOptionKey(key, closest) == Some(key)
  {
    AlnumKeyIsOwnTrim(key);
  }

  // ---------------------------------------------------------------------
  // clean_placeholder_text (pdfconv.py:220-242); nothing in the program calls it

  /** `re.sub(r'\{\s*\{', '{{', s)` (and the same for `}`): two braces with
      only whitespace between them are closed up. */
  function CloseUp(s: string, b: char): string
    decreases |s|
  {
    if s == [] then []
    else if s[0] == b then
      var rest := s[1..];
      var k := FirstWhere(rest, IsNotSpace);
      if k < |rest| && rest[k] == b then [b, b] + CloseUp(rest[k + 1..], b)
      else [s[0]] + CloseUp(rest, b)
    else [s[0]] + CloseUp(s[1..], b)
  }

  /** `s.replace('}}{{', '}} {{')` */
  function SplitMerged(s: string): string
    decreases |s|
  {
    if |s| >= 4 && s[..4] == "}}{{" then "}} {{" + SplitMerged(s[4..])
    else if s == [] then []
    else [s[0]] + SplitMerged(s[1..])
  }

  /** The first position of `}}` in `t`, or `|t|`. */
  function FirstClose(t: string): (k: nat)
    ensures k <= |t|
    ensures k < |t| ==> k + 1 < |t| && t[k] == '}' && t[k + 1] == '}'
    ensures forall j :: 0 <= j < k && j + 1 < |t| ==> !(t[j] == '}' && t[j + 1] == '}')
  {
    if |t| < 2 then |t|
    else if t[0] == '}' && t[1] == '}' then 0
    else
      var k := 1 + FirstClose(t[1..]);
      if k == 1 + |t[1..]| then |t| else k
  }

  /** After a `{{`, the lazy `(.*?)\}\}` finds its `}}`: the first one, with
      no newline before it (`.` does not match a newline). */
  predicate Matchable(t: string) {
    var k := FirstClose(t);
    k < |t| && '\n' !in t[..k]
  }

  /** `re.sub(r'\{\{(.*?)\}\}', clean_inside, s)`: the shortest `{{ ... }}`
      whose inside has no newline gets every whitespace character removed. */
  function CleanInside(s: string): string
    decreases |s|
  {
    if s == [] then []
    else if |s| >= 2 && s[0] == '{' && s[1] == '{' then
      var t := s[2..];
      if Matchable(t) then
        var k := FirstClose(t);
        "{{" + RemoveWhitespace(t[..k]) + "}}" + CleanInside(t[k + 2..])
      else [s[0]] + CleanInside(s[1..])
    else [s[0]] + CleanInside(s[1..])
  }

  /** The two later `\s*:\s*` and `\s*\|\s*` substitutions of clean_inside act on
      a string without whitespace and change nothing, so they are not written out. */
  function CleanPlaceholderText(text: string): string {
    CleanInside(SplitMerged(CloseUp(CloseUp(StripInvisible(text), '{'), '}')))
  }

  lemma {:induction false} CloseUpKeeps(s: string, b: char, p: char -> bool)
    requires AllChars(s, p) && p(b)
    ensures AllChars(CloseUp(s, b), p)
    decreases |s|
  {
    if s != [] {
      var rest := s[1..];
      if s[0] == b {
        var k := FirstWhere(rest, IsNotSpace);
        if k < |rest| && rest[k] == b {
          CloseUpKeeps(rest[k + 1..], b, p);
        } else {
          CloseUpKeeps(rest, b, p);
        }
      } else {
        CloseUpKeeps(rest, b, p);
      }
    }
  }

  lemma {:induction false} SplitMergedKeeps(s: string, p: char -> bool)
    requires AllChars(s, p) && p(' ') && p('{') && p('}')
    ensures AllChars(SplitMerged(s), p)
    decreases |s|
  {
    if |s| >= 4 && s[..4] == "}}{{" {
      SplitMergedKeeps(s[4..], p);
    } else if s != [] {
      SplitMergedKeeps(s[1..], p);
    }
  }

  lemma {:induction false} CleanInsideKeeps(s: string, p: char -> bool)
    requires AllChars(s, p) && p('{') && p('}')
    ensures AllChars(CleanInside(s), p)
    decreases |s|
  {
    if s != [] {
      if |s| >= 2 && s[0] == '{' && s[1] == '{' {
        var t := s[2..];
        AllCharsSlice(s, 2, |s|, p);
        var k := FirstClose(t);
        if Matchable(t) {
          AllCharsSlice(t, 0, k, p);
          KeepKeeps(t[..k], IsNotSpace, p);
          AllCharsSlice(t, k + 2, |t|, p);
          CleanInsideKeeps(t[k + 2..], p);
          var inner := RemoveWhitespace(t[..k]);
          AllCharsConcat("{{", inner, p);
          AllCharsConcat("{{" + inner, "}}", p);
          AllCharsConcat("{{" + inner + "}}", CleanInside(t[k + 2..]), p);
        } else {
          AllCharsSlice(s, 1, |s|, p);
          CleanInsideKeeps(s[1..], p);
          AllCharsConcat([s[0]], CleanInside(s[1..]), p);
        }
      } else {
        AllCharsSlice(s, 1, |s|, p);
        CleanInsideKeeps(s[1..], p);
        AllCharsConcat([s[0]], CleanInside(s[1..]), p);
      }
    }
  }

  // What the clean-up promises

  /** `re.sub(r'\{\s*\{', '{{', ...)` scans on after the second brace, so
      of three spaced braces only the first two are closed up. */
  lemma CloseUpThreeBraces()
    ensures CloseUp("{ { {", '{') == "{{ {"
  {
    var s := "{ { {";
    assert FirstWhere(s[1..], IsNotSpace) == 1;
    assert s[1..][2..] == " {";
    var t := " {";
    assert FirstWhere(t[1..], IsNotSpace) == 0;
    assert CloseUp(t[1..], '{') == "{" by {
      assert FirstWhere(t[1..][1..], IsNotSpace) == 0;
    }
    assert CloseUp(t, '{') == " {";
  }

  /** Closing up deletes whitespace and nothing else. */
  lemma {:induction false} CloseUpRemovesOnlySpace(s: string, b: char)
    requires !IsSpace(b)
    ensures Keep(CloseUp(s, b), IsNotSpace) == Keep(s, IsNotSpace)
    decreases |s|
  {
    if s != [] {
      var rest := s[1..];
      var k := FirstWhere(rest, IsNotSpace);
      if s[0] == b && k < |rest| && rest[k] == b {
        var y := rest[k + 1..];
        CloseUpRemovesOnlySpace(y, b);
        assert y == s[k + 2..];
        ClosedPairKeep(s, b, k);
        KeepPair(b, CloseUp(y, b));
        assert CloseUp(s, b) == [b, b] + CloseUp(y, b);
      } else {
        CloseUpRemovesOnlySpace(rest, b);
        assert CloseUp(s, b) == [s[0]] + CloseUp(rest, b);
        CopiedKeep(s, CloseUp(rest, b));
      }
    }
  }

  /** A copied first character, in front of text that keeps what the rest keeps. */
  lemma CopiedKeep(s: string, t: string)
    requires s != [] && Keep(t, IsNotSpace) == Keep(s[1..], IsNotSpace)
    ensures Keep([s[0]] + t, IsNotSpace) == Keep(s, IsNotSpace)
  {
    KeepCons(s[0], s[1..]);
    KeepCons(s[0], t);
    assert s == [s[0]] + s[1..];
  }

  lemma KeepPair(b: char, t: string)
    requires !IsSpace(b)
    ensures Keep([b, b] + t, IsNotSpace) == [b, b] + Keep(t, IsNotSpace)
  {
    KeepCons(b, [b] + t);
    KeepCons(b, t);
    assert [b, b] + t == [b] + ([b] + t);
  }

  lemma KeepCons(c: char, t: string)
    ensures Keep([c] + t, IsNotSpace) == (if IsNotSpace(c) then [c] else []) + Keep(t, IsNotSpace)
  {
    assert ([c] + t)[1..] == t;
  }

  /** A closed-up pair `b ... b` keeps both braces and only loses whitespace. */
  lemma ClosedPairKeep(s: string, b: char, k: nat)
    requires !IsSpace(b) && s != [] && s[0] == b
    requires k == FirstWhere(s[1..], IsNotSpace) && k < |s| - 1 && s[k + 1] == b
    ensures Keep(s, IsNotSpace) == [b, b] + Keep(s[k + 2..], IsNotSpace)
  {
    var g := s[1..k + 1];
    forall j | 0 <= j < k ensures IsSpace(g[j]) {
      assert g[j] == s[1..][j];
    }
    Cut3(s, 1, k + 1);
    assert s[..1] == [b];
    assert s[k + 1..] == [b] + s[k + 2..];
    SpacedPairKeep(b, s[..1], g, s[k + 1..], s[k + 2..]);
  }

  lemma SpacedPairKeep(b: char, x: string, g: string, z: string, y: string)
    requires !IsSpace(b) && AllChars(g, IsSpace) && x == [b] && z == [b] + y
    ensures Keep(x + g + z, IsNotSpace) == [b, b] + Keep(y, IsNotSpace)
  {
    KeepConcat(x + g, z, IsNotSpace);
    KeepConcat(x, g, IsNotSpace);
    NoneKept(g);
    KeepCons(b, []);
    assert [b] + [] == [b];
    KeepCons(b, y);
  }

  /** No brace `b` of `s` is followed by whitespace and then another `b`. */
  predicate NoSpacedPair(s: string, b: char) {
    forall i :: 0 <= i < |s| - 1 && s[i] == b && IsSpace(s[i + 1]) ==>
      var r := s[i + 1..]; var k := FirstWhere(r, IsNotSpace); k == |r| || r[k] != b
  }

  lemma NoSpacedPairTail(s: string, b: char)
    requires s != [] && NoSpacedPair(s, b)
    ensures NoSpacedPair(s[1..], b)
  {
    var t := s[1..];
    forall i | 0 <= i < |t| - 1 && t[i] == b && IsSpace(t[i + 1])
      ensures var r := t[i + 1..]; var k := FirstWhere(r, IsNotSpace); k == |r| || r[k] != b
    {
      assert t[i + 1..] == s[i + 2..];
      assert s[i + 1] == b && IsSpace(s[i + 2]);
    }
  }

  /** Text without spaced braces is left as it is. */
  lemma {:induction false} CloseUpIdentity(s: string, b: char)
    requires !IsSpace(b) && NoSpacedPair(s, b)
    ensures CloseUp(s, b) == s
    decreases |s|
  {
    if s != [] {
      NoSpacedPairTail(s, b);
      var rest := s[1..];
      CloseUpIdentity(rest, b);
      if s[0] == b {
        var k := FirstWhere(rest, IsNotSpace);
        if k < |rest| && rest[k] == b {
          if k > 0 {
            assert false;
          }
          assert rest == [b] + rest[1..];
          NoSpacedPairTail(rest, b);
          CloseUpIdentity(rest[1..], b);
        }
      }
    }
  }

  /** No `}}{{` anywhere in `t`. */
  predicate NoMerged(t: string) {
    forall i :: 0 <= i < |t| - 3 ==> !(t[i] == '}' && t[i + 1] == '}' && t[i + 2] == '{' && t[i + 3] == '{')
  }

  /** A replacement begins with the `}` it replaces, so the output begins
      with the first character of the input. */
  lemma SplitMergedHead(x: string)
    requires x != []
    ensures SplitMerged(x) != [] && SplitMerged(x)[0] == x[0]
  {
    if |x| >= 4 && x[..4] == "}}{{" {
      assert x[0] == x[..4][0];
    }
  }

  /** The output can only begin with `}{{` where the input does. */
  lemma SplitMergedPrefix(x: string)
    requires |SplitMerged(x)| >= 3 && SplitMerged(x)[0] == '}' && SplitMerged(x)[1] == '{' && SplitMerged(x)[2] == '{'
    ensures |x| >= 3 && x[0] == '}' && x[1] == '{' && x[2] == '{'
  {
    SplitMergedHead(x);
    assert !(|x| >= 4 && x[..4] == "}}{{");
    var y := x[1..];
    assert SplitMerged(x) == [x[0]] + SplitMerged(y);
    assert y != [];
    SplitMergedHead(y);
    assert y[0] == '{';
    assert !(|y| >= 4 && y[..4] == "}}{{") by {
      if |y| >= 4 { assert y[..4][0] == y[0]; }
    }
    assert SplitMerged(y) == [y[0]] + SplitMerged(y[1..]);
    assert y[1..] != [];
    SplitMergedHead(y[1..]);
  }

  /** `s.replace('}}{{', '}} {{')` leaves no `}}{{` behind. */
  lemma {:induction false} SplitMergedSeparates(s: string)
    ensures NoMerged(SplitMerged(s))
    decreases |s|
  {
    if |s| >= 4 && s[..4] == "}}{{" {
      var rest := SplitMerged(s[4..]);
      SplitMergedSeparates(s[4..]);
      NoMergedCons('{', rest);
      NoMergedCons('{', "{" + rest);
      NoMergedCons(' ', "{{" + rest);
      NoMergedCons('}', " {{" + rest);
      NoMergedCons('}', "} {{" + rest);
      assert "}} {{" + rest == "}" + ("} {{" + rest);
    } else if s != [] {
      var rest := SplitMerged(s[1..]);
      SplitMergedSeparates(s[1..]);
      if s[0] == '}' && |rest| >= 3 && rest[0] == '}' && rest[1] == '{' && rest[2] == '{' {
        SplitMergedPrefix(s[1..]);
      }
      NoMergedCons(s[0], rest);
    }
  }

  /** Putting a character in front makes a `}}{{` only with a `}{{` that was there. */
  lemma NoMergedCons(c: char, t: string)
    requires NoMerged(t)
    requires !(c == '}' && |t| >= 3 && t[0] == '}' && t[1] == '{' && t[2] == '{')
    ensures NoMerged([c] + t)
  {
    var r := [c] + t;
    forall i | 0 <= i < |r| - 3
      ensures !(r[i] == '}' && r[i + 1] == '}' && r[i + 2] == '{' && r[i + 3] == '{')
    {
      if i >= 1 {
        assert r[i] == t[i - 1] && r[i + 1] == t[i] && r[i + 2] == t[i + 1] && r[i + 3] == t[i + 2];
      } else {
        assert r[1] == t[0] && r[2] == t[1] && r[3] == t[2];
      }
    }
  }

  /** Text without `}}{{` is left as it is. */
  lemma {:induction false} SplitMergedIdentity(s: string)
    requires NoMerged(s)
    ensures SplitMerged(s) == s
    decreases |s|
  {
    if s != [] {
      assert |s| >= 4 ==> s[..4] != "}}{{" by {
        if |s| >= 4 {
          assert s[..4][0] == s[0] && s[..4][1] == s[1] && s[..4][2] == s[2] && s[..4][3] == s[3];
        }
      }
      var t := s[1..];
      assert NoMerged(t) by {
        forall i | 0 <= i < |t| - 3
          ensures !(t[i] == '}' && t[i + 1] == '}' && t[i + 2] == '{' && t[i + 3] == '{')
        {
          assert t[i] == s[i + 1] && t[i + 3] == s[i + 4];
        }
      }
      SplitMergedIdentity(t);
    }
  }

  /** The inside of a `{{` that the regex would take has no whitespace. */
  predicate InteriorClean(t: string) {
    Matchable(t) ==> AllChars(t[..FirstClose(t)], IsNotSpace)
  }

  /** At every `{{` of `s`, the inside the regex would take is whitespace free. */
  predicate InteriorsClean(s: string)
    decreases |s|
  {
    |s| < 2 || ((s[0] == '{' && s[1] == '{' ==> InteriorClean(s[2..])) && InteriorsClean(s[1..]))
  }

  /** Every step of the clean-up starts with the character it looked at. */
  lemma CleanInsideHead(x: string)
    requires x != []
    ensures CleanInside(x) != [] && CleanInside(x)[0] == x[0]
  {
  }

  /** The first `}}` is no later than any `}}`. */
  lemma FirstCloseAt(y: string, p: nat)
    requires p + 1 < |y| && y[p] == '}' && y[p + 1] == '}'
    ensures FirstClose(y) <= p
  {
  }

  /** A character in front that does not make a `}}` shifts the first `}}`
      by one, and the inside gains that character. */
  lemma MatchableCons(c: char, y: string)
    requires !(c == '}' && y != [] && y[0] == '}')
    ensures Matchable([c] + y) <==> c != '\n' && Matchable(y)
  {
    var z := [c] + y;
    assert z[1..] == y;
    if y != [] {
      var k := FirstClose(y);
      assert FirstClose(z) == 1 + k;
      if k < |y| {
        assert z[..1 + k] == [c] + y[..k];
      }
    }
  }

  /** After a whitespace-free piece, a `}}` closes the inside of every `{{` in the piece. */
  lemma PieceInteriorClean(x: string, y: string)
    requires AllChars(x, IsNotSpace)
    ensures InteriorClean(x + "}}" + y)
  {
    var z := x + "}}" + y;
    assert z[|x|] == '}' && z[|x| + 1] == '}';
    FirstCloseAt(z, |x|);
    var k := FirstClose(z);
    assert z[..k] == x[..k];
    AllCharsSlice(x, 0, k, IsNotSpace);
  }

  /** Putting one character in front keeps the interiors clean when a new
      `{{` it makes has a clean inside. */
  lemma ConsClean(c: char, z: string)
    requires InteriorsClean(z)
    requires c == '{' && z != [] && z[0] == '{' ==> InteriorClean(z[1..])
    ensures InteriorsClean([c] + z)
  {
    assert ([c] + z)[1..] == z;
    if z != [] {
      assert ([c] + z)[2..] == z[1..];
    }
  }

  /** A whitespace-free piece, `}}` and text with clean interiors have clean interiors. */
  lemma {:induction false} PieceClean(x: string, y: string)
    requires AllChars(x, IsNotSpace) && InteriorsClean(y)
    ensures InteriorsClean(x + "}}" + y)
    decreases |x|
  {
    if x == [] {
      assert x + "}}" + y == "}" + ("}" + y);
      ConsClean('}', y);
      ConsClean('}', "}" + y);
    } else {
      var x' := x[1..];
      AllCharsSlice(x, 1, |x|, IsNotSpace);
      PieceClean(x', y);
      assert x + "}}" + y == [x[0]] + (x' + "}}" + y);
      if x' != [] {
        AllCharsSlice(x', 1, |x'|, IsNotSpace);
        PieceInteriorClean(x'[1..], y);
        assert (x' + "}}" + y)[1..] == x'[1..] + "}}" + y;
      }
      ConsClean(x[0], x' + "}}" + y);
    }
  }

  /** A `{{` the regex takes is one the input text did not have to offer
      only if the input could not offer one: the clean-up never makes an
      unmatchable inside matchable. */
  lemma {:induction false} UnmatchableStays(x: string)
    requires !Matchable(x)
    ensures !Matchable(CleanInside(x))
    decreases |x|
  {
    if x != [] {
      if |x| >= 2 && x[0] == '{' && x[1] == '{' {
        MatchableCons('{', x[1..]);
        MatchableCons('{', x[2..]);
        assert x == [x[0]] + x[1..] && x[1..] == [x[1]] + x[2..];
      }
      assert x == [x[0]] + x[1..];
      MatchableCons(x[0], x[1..]);
      var r := CleanInside(x[1..]);
      assert CleanInside(x) == [x[0]] + r;
      if x[1..] != [] {
        CleanInsideHead(x[1..]);
      }
      if !Matchable(x[1..]) {
        UnmatchableStays(x[1..]);
      }
      MatchableCons(x[0], r);
    }
  }

  /** A `{` copied in front of the clean-up of text that starts with `{`
      makes a `{{` whose inside is clean. */
  lemma CopiedBraceClean(s: string)
    requires |s| >= 2 && s[0] == '{' && s[1] == '{' && !Matchable(s[2..])
    ensures InteriorClean(CleanInside(s[1..])[1..])
  {
    var y := s[1..];
    var t := y[1..];
    assert t == s[2..];
    if t != [] && t[0] == '{' {
      assert t == [t[0]] + t[1..];
      MatchableCons('{', t[1..]);
    }
    assert CleanInside(y) == [y[0]] + CleanInside(t);
    assert CleanInside(y)[1..] == CleanInside(t);
    UnmatchableStays(t);
  }

  /** A taken `{{ ... }}` with a whitespace-free inside, before text with
      clean interiors, has clean interiors. */
  lemma BlockClean(w: string, r: string)
    requires AllChars(w, IsNotSpace) && InteriorsClean(r)
    ensures InteriorsClean("{{" + w + "}}" + r)
  {
    var z := w + "}}" + r;
    PieceClean(w, r);
    PieceInteriorClean(w, r);
    if w != [] {
      AllCharsSlice(w, 1, |w|, IsNotSpace);
      PieceInteriorClean(w[1..], r);
      assert z[1..] == w[1..] + "}}" + r;
    }
    ConsClean('{', z);
    ConsClean('{', "{" + z);
    assert "{{" + w + "}}" + r == "{" + ("{" + z);
  }

  /** A copied character keeps the interiors of the rest clean. */
  lemma CopyClean(s: string)
    requires s != [] && !(|s| >= 2 && s[0] == '{' && s[1] == '{' && Matchable(s[2..]))
    requires InteriorsClean(CleanInside(s[1..]))
    ensures InteriorsClean(CleanInside(s))
  {
    var r := CleanInside(s[1..]);
    assert CleanInside(s) == [s[0]] + r;
    CopiedFront(s);
    ConsClean(s[0], r);
  }

  /** A `{` copied in front of a clean-up that starts with `{` opens a clean inside. */
  lemma CopiedFront(s: string)
    requires s != [] && !(|s| >= 2 && s[0] == '{' && s[1] == '{' && Matchable(s[2..]))
    ensures var r := CleanInside(s[1..]);
      s[0] == '{' && r != [] && r[0] == '{' ==> InteriorClean(r[1..])
  {
    var r := CleanInside(s[1..]);
    if s[0] == '{' && r != [] && r[0] == '{' {
      CleanInsideHead(s[1..]);
      CopiedBraceClean(s);
    }
  }

  /** The clean-up leaves no whitespace inside any `{{ ... }}` the regex would take. */
  lemma {:induction false} CleanInsideCleans(s: string)
    ensures InteriorsClean(CleanInside(s))
    decreases |s|
  {
    if s != [] {
      if |s| >= 2 && s[0] == '{' && s[1] == '{' && Matchable(s[2..]) {
        var t := s[2..];
        var k := FirstClose(t);
        CleanInsideCleans(t[k + 2..]);
        BlockClean(RemoveWhitespace(t[..k]), CleanInside(t[k + 2..]));
      } else {
        CleanInsideCleans(s[1..]);
        CopyClean(s);
      }
    }
  }

  lemma {:induction false} InteriorsCleanSuffix(s: string, j: nat)
    requires InteriorsClean(s) && j <= |s|
    ensures InteriorsClean(s[j..])
    decreases j
  {
    if j > 0 && |s| >= 2 {
      InteriorsCleanSuffix(s[1..], j - 1);
      assert s[1..][j - 1..] == s[j..];
    }
  }

  /** A taken `{{ ... }}` block and what follows it make up the text again. */
  lemma BlockRebuilt(s: string, k: nat)
    requires |s| >= 2 && s[0] == '{' && s[1] == '{' && Matchable(s[2..])
    requires k == FirstClose(s[2..])
    ensures s == "{{" + s[2..][..k] + "}}" + s[2..][k + 2..]
  {
    var t := s[2..];
    Cut3(t, k, k + 2);
    assert t[k..k + 2] == "}}";
    assert s == "{{" + t;
  }

  /** Text whose interiors are already clean is left as it is. */
  lemma {:induction false} CleanInsideIdentity(s: string)
    requires InteriorsClean(s)
    ensures CleanInside(s) == s
    decreases |s|
  {
    if s != [] {
      if |s| >= 2 && s[0] == '{' && s[1] == '{' && Matchable(s[2..]) {
        var t := s[2..];
        var k := FirstClose(t);
        KeepAll(t[..k], IsNotSpace);
        InteriorsCleanSuffix(s, k + 4);
        assert s[k + 4..] == t[k + 2..];
        CleanInsideIdentity(t[k + 2..]);
        BlockRebuilt(s, k);
      } else {
        InteriorsCleanSuffix(s, 1);
        CleanInsideIdentity(s[1..]);
      }
    }
  }

  /** Cleaning twice is cleaning once. */
  lemma CleanInsideIdempotent(s: string)
    ensures CleanInside(CleanInside(s)) == CleanInside(s)
  {
    CleanInsideCleans(s);
    CleanInsideIdentity(CleanInside(s));
  }

  /** The cleaned text has clean interiors. */
  lemma CleanPlaceholderTextCleans(text: string)
    ensures InteriorsClean(CleanPlaceholderText(text))
  {
    CleanInsideCleans(SplitMerged(CloseUp(CloseUp(StripInvisible(text), '{'), '}')));
  }

  /** Text that is already clean comes back unchanged. */
  lemma CleanPlaceholderTextIdentity(text: string)
    requires AllChars(text, IsVisible)
    requires NoSpacedPair(text, '{') && NoSpacedPair(text, '}')
    requires NoMerged(text) && InteriorsClean(text)
    ensures CleanPlaceholderText(text) == text
  {
    StripInvisibleIdentity(text);
    CloseUpIdentity(text, '{');
    CloseUpIdentity(text, '}');
    SplitMergedIdentity(text);
    CleanInsideIdentity(text);
  }

  /** The cleaned page text carries none of the invisible characters. */
  lemma CleanPlaceholderTextIsVisible(text: string)
    ensures AllChars(CleanPlaceholderText(text), IsVisible)
  {
    var a := StripInvisible(text);
    CloseUpKeeps(a, '{', IsVisible);
    CloseUpKeeps(CloseUp(a, '{'), '}', IsVisible);
    SplitMergedKeeps(CloseUp(CloseUp(a, '{'), '}'), IsVisible);
    CleanInsideKeeps(SplitMerged(CloseUp(CloseUp(a, '{'), '}')), IsVisible);
  }
}
