/**
 * The character classes and the handful of Python string operations that
 * pdfconv.py relies on (str.strip, str.split, str.join, str.lower, str.translate
 * and the `\s` class of the re module), stated over Dafny strings.
 */
module Text {

  /** The characters for which Python's str.isspace() holds; `\s` in a str
      pattern matches exactly these. */
  predicate IsSpace(c: char) {
    || c == ' '
    || ('\t' <= c <= '\r')
    || ('\U{1C}' <= c <= '\U{1F}')
    || c == '\U{85}'
    || c == '\U{A0}'
    || c == '\U{1680}'
    || ('\U{2000}' <= c <= '\U{200A}')
    || c == '\U{2028}'
    || c == '\U{2029}'
    || c == '\U{202F}'
    || c == '\U{205F}'
    || c == '\U{3000}'
  }

  predicate IsNotSpace(c: char) { !IsSpace(c) }

  /** The eight code points of _INVISIBLE_CHAR_CODES: soft hyphen, zero-width
      space, non-joiner and joiner, the two directional marks, word joiner and
      the byte-order mark. */
  predicate IsInvisible(c: char) {
    || c == '\U{00AD}'
    || c == '\U{200B}'
    || c == '\U{200C}'
    || c == '\U{200D}'
    || c == '\U{200E}'
    || c == '\U{200F}'
    || c == '\U{2060}'
    || c == '\U{FEFF}'
  }

  predicate IsVisible(c: char) { !IsInvisible(c) }

  predicate IsPipe(c: char) { c == '|' }

  /** The characters of `strip('{}[]()')`. */
  predicate IsBracket(c: char) { c == '{' || c == '}' || c == '[' || c == ']' || c == '(' || c == ')' }

  /** The characters of `strip(')}]')`. */
  predicate IsCloser(c: char) { c == ')' || c == '}' || c == ']' }

  predicate IsAsciiAlnum(c: char) { ('0' <= c <= '9') || ('A' <= c <= 'Z') || ('a' <= c <= 'z') }

  /** `[a-z0-9]` */
  predicate IsLowerAlnum(c: char) { ('0' <= c <= '9') || ('a' <= c <= 'z') }

  predicate IsNotLowerAlnum(c: char) { !IsLowerAlnum(c) }

  /** `[A-Za-z0-9_\-]`, the characters of a field name. */
  predicate IsNameChar(c: char) { IsAsciiAlnum(c) || c == '_' || c == '-' }

  predicate IsNotNameChar(c: char) { !IsNameChar(c) }

  predicate AllChars(s: string, p: char -> bool) {
    forall i :: 0 <= i < |s| ==> p(s[i])
  }

  lemma AllCharsConcat(a: string, b: string, p: char -> bool)
    requires AllChars(a, p) && AllChars(b, p)
    ensures AllChars(a + b, p)
  {
    forall i | 0 <= i < |a + b| ensures p((a + b)[i]) {
      if i < |a| {
        assert (a + b)[i] == a[i];
      } else {
        assert (a + b)[i] == b[i - |a|];
      }
    }
  }

  lemma AllCharsSlice(s: string, i: int, j: int, p: char -> bool)
    requires 0 <= i <= j <= |s| && AllChars(s, p)
    ensures AllChars(s[i..j], p)
  {
    forall k | 0 <= k < j - i ensures p(s[i..j][k]) {
      assert s[i..j][k] == s[i + k];
    }
  }

  /** No two consecutive `|`. */
  predicate NoDoublePipe(s: string) {
    forall i :: 0 <= i < |s| - 1 ==> !(s[i] == '|' && s[i + 1] == '|')
  }

  // ---------------------------------------------------------------------
  // Deleting characters

  /** The characters of `s` that satisfy `p`, in order. */
  function Keep(s: string, p: char -> bool): (r: string)
    ensures AllChars(r, p)
    ensures |r| <= |s|
  {
    if s == [] then []
    else (if p(s[0]) then [s[0]] else []) + Keep(s[1..], p)
  }

  /** Exactly the characters failing `p` are deleted: each other character
      occurs as often as before. */
  lemma {:induction false} KeepCounts(s: string, p: char -> bool)
    ensures forall c :: multiset(Keep(s, p))[c] == if p(c) then multiset(s)[c] else 0
  {
    if s != [] {
      assert s == [s[0]] + s[1..];
      KeepCounts(s[1..], p);
    }
  }

  lemma {:induction false} KeepConcat(a: string, b: string, p: char -> bool)
    ensures Keep(a + b, p) == Keep(a, p) + Keep(b, p)
  {
    if a == [] {
      assert a + b == b;
    } else {
      var head := if p(a[0]) then [a[0]] else [];
      assert (a + b)[0] == a[0];
      assert (a + b)[1..] == a[1..] + b;
      assert Keep(a + b, p) == head + Keep(a[1..] + b, p);
      KeepConcat(a[1..], b, p);
      assert Keep(a, p) == head + Keep(a[1..], p);
      assert head + (Keep(a[1..], p) + Keep(b, p)) == (head + Keep(a[1..], p)) + Keep(b, p);
    }
  }

  /** Keeping what is already all kept changes nothing. */
  lemma {:induction false} KeepAll(s: string, p: char -> bool)
    requires AllChars(s, p)
    ensures Keep(s, p) == s
  {
    if s != [] {
      KeepAll(s[1..], p);
    }
  }

  /** strip_invisible (pdfconv.py:82-90): drop the eight invisible code points,
      keep every other character, ordinary whitespace included. */
  function StripInvisible(s: string): (r: string)
    ensures AllChars(r, IsVisible)
    ensures forall c :: multiset(r)[c] == if IsInvisible(c) then 0 else multiset(s)[c]
  {
    KeepCounts(s, IsVisible);
    Keep(s, IsVisible)
  }

  lemma StripInvisibleIdempotent(s: string)
    ensures StripInvisible(StripInvisible(s)) == StripInvisible(s)
  {
    KeepAll(StripInvisible(s), IsVisible);
  }

  lemma StripInvisibleIdentity(s: string)
    requires AllChars(s, IsVisible)
    ensures StripInvisible(s) == s
  {
    KeepAll(s, IsVisible);
  }

  lemma StripInvisibleConcat(a: string, b: string)
    ensures StripInvisible(a + b) == StripInvisible(a) + StripInvisible(b)
  {
    KeepConcat(a, b, IsVisible);
  }

  /** `re.sub(r'\s+', '', s)` */
  function RemoveWhitespace(s: string): (r: string)
    ensures AllChars(r, IsNotSpace)
  {
    Keep(s, IsNotSpace)
  }

  // ---------------------------------------------------------------------
  // Stripping

  /** The number of leading characters of `s` that `drop` removes. */
  function LeadingDropped(s: string, drop: char -> bool): (k: nat)
    ensures k <= |s|
    ensures forall j :: 0 <= j < k ==> drop(s[j])
    ensures k < |s| ==> !drop(s[k])
  {
    if s == [] || !drop(s[0]) then 0 else 1 + LeadingDropped(s[1..], drop)
  }

  /** Where the run of trailing characters that `drop` removes begins. */
  function TrailingDropped(s: string, drop: char -> bool): (k: nat)
    ensures k <= |s|
    ensures forall j :: k <= j < |s| ==> drop(s[j])
    ensures k > 0 ==> !drop(s[k - 1])
  {
    if s == [] || !drop(s[|s| - 1]) then |s| else TrailingDropped(s[..|s| - 1], drop)
  }

  /** `s.lstrip(chars)`: the longest suffix of `s` that does not start with a dropped character. */
  function LStrip(s: string, drop: char -> bool): string {
    s[LeadingDropped(s, drop)..]
  }

  /** `s.rstrip(chars)` */
  function RStrip(s: string, drop: char -> bool): string {
    s[..TrailingDropped(s, drop)]
  }

  /** `s.strip(chars)`: lstrip then rstrip, as CPython does. */
  function Strip(s: string, drop: char -> bool): (r: string)
    ensures |r| <= |s|
    ensures r == [] || (!drop(r[0]) && !drop(r[|r| - 1]))
  {
    RStrip(LStrip(s, drop), drop)
  }

  /** What survives a strip is a piece of the input, so it keeps every
      property its characters had. */
  lemma StripKeeps(s: string, drop: char -> bool, p: char -> bool)
    requires AllChars(s, p)
    ensures AllChars(Strip(s, drop), p)
  {
    var a, b := StripSlice(s, drop);
    assert forall i :: 0 <= i < b - a ==> s[a..b][i] == s[a + i];
  }

  /** The strip of a string is a slice of it. */
  lemma StripSlice(s: string, drop: char -> bool) returns (a: int, b: int)
    ensures 0 <= a <= b <= |s|
    ensures Strip(s, drop) == s[a..b]
    ensures AllChars(s[..a], drop) && AllChars(s[b..], drop)
  {
    a := LeadingDropped(s, drop);
    var l := s[a..];
    b := a + TrailingDropped(l, drop);
    assert l[..b - a] == s[a..b];
    assert forall i :: 0 <= i < a ==> s[..a][i] == s[i];
    assert forall i :: 0 <= i < |s| - b ==> s[b..][i] == l[b - a + i];
  }

  /** The strip of a string is the piece between its leading and its
      trailing run of dropped characters. */
  lemma StripBetween(s: string, drop: char -> bool)
    ensures exists a, b ::
      && 0 <= a <= b <= |s| && Strip(s, drop) == s[a..b]
      && AllChars(s[..a], drop) && AllChars(s[b..], drop)
  {
    var a, b := StripSlice(s, drop);
  }

  /** Stripping whitespace before removing it changes nothing, and the
      stripped string begins and ends with the first and the last character
      that survive the removal. */
  lemma StripThenRemove(t: string)
    ensures Keep(Strip(t, IsSpace), IsNotSpace) == Keep(t, IsNotSpace)
    ensures var u := Strip(t, IsSpace); var w := Keep(t, IsNotSpace);
      u != [] ==> w != [] && u[0] == w[0] && u[|u| - 1] == w[|w| - 1]
  {
    var a, b := StripSlice(t, IsSpace);
    KeepInside(t, a, b);
    SurvivingEnds(Strip(t, IsSpace), Keep(t, IsNotSpace));
  }

  /** Whitespace cut off at either end does not survive the removal. */
  lemma KeepInside(t: string, a: nat, b: nat)
    requires a <= b <= |t| && AllChars(t[..a], IsSpace) && AllChars(t[b..], IsSpace)
    ensures Keep(t, IsNotSpace) == Keep(t[a..b], IsNotSpace)
  {
    Cut3(t, a, b);
    KeepAround(t[..a], t[a..b], t[b..]);
  }

  /** The ends of a stripped, non-empty text are the first and the last
      character that survive the removal. */
  lemma SurvivingEnds(u: string, w: string)
    requires w == Keep(u, IsNotSpace)
    requires u == [] || (!IsSpace(u[0]) && !IsSpace(u[|u| - 1]))
    ensures u != [] ==> w != [] && u[0] == w[0] && u[|u| - 1] == w[|w| - 1]
  {
    if u != [] {
      KeepEnds(u);
    }
  }

  lemma Cut3(t: string, a: nat, b: nat)
    requires a <= b <= |t|
    ensures t == t[..a] + t[a..b] + t[b..]
  {
    assert t[..b] == t[..a] + t[a..b];
    assert t == t[..b] + t[b..];
  }

  /** Whitespace around a string does not survive the removal. */
  lemma KeepAround(x: string, u: string, y: string)
    requires AllChars(x, IsSpace) && AllChars(y, IsSpace)
    ensures Keep(x + u + y, IsNotSpace) == Keep(u, IsNotSpace)
  {
    NoneKept(x);
    NoneKept(y);
    KeepConcat(x + u, y, IsNotSpace);
    KeepConcat(x, u, IsNotSpace);
  }

  /** A string whose ends are not whitespace keeps them. */
  lemma KeepEnds(u: string)
    requires u != [] && !IsSpace(u[0]) && !IsSpace(u[|u| - 1])
    ensures var w := Keep(u, IsNotSpace); w != [] && w[0] == u[0] && w[|w| - 1] == u[|u| - 1]
  {
    var n := |u| - 1;
    assert u == u[..n] + [u[n]];
    KeepConcat(u[..n], [u[n]], IsNotSpace);
    assert Keep([u[n]], IsNotSpace) == [u[n]];
  }

  /** A string with nothing to strip at either end is left as it is. */
  lemma StripNothing(s: string, drop: char -> bool)
    requires s == [] || (!drop(s[0]) && !drop(s[|s| - 1]))
    ensures Strip(s, drop) == s
  {
  }

  lemma StripNoneOf(s: string, drop: char -> bool)
    requires forall i :: 0 <= i < |s| ==> !drop(s[i])
    ensures Strip(s, drop) == s
  {
    StripNothing(s, drop);
  }

  // ---------------------------------------------------------------------
  // Case

  function LowerChar(c: char): char {
    if 'A' <= c <= 'Z' then (c as int + 32) as char else c
  }

  function UpperChar(c: char): char {
    if 'a' <= c <= 'z' then (c as int - 32) as char else c
  }

  /** `s.lower()`, restricted to the ASCII letters (see README). */
  function Lower(s: string): (r: string)
    ensures |r| == |s|
    ensures forall i :: 0 <= i < |r| ==> !('A' <= r[i] <= 'Z')
  {
    seq(|s|, i requires 0 <= i < |s| => LowerChar(s[i]))
  }

  // ---------------------------------------------------------------------
  // Searching, splitting and joining

  /** The index of the first `c` in `s`, or `|s|` when there is none. */
  function IndexOf<T(==)>(s: seq<T>, c: T): (k: nat)
    ensures k <= |s|
    ensures forall j :: 0 <= j < k ==> s[j] != c
    ensures k < |s| ==> s[k] == c
  {
    if s == [] || s[0] == c then 0 else 1 + IndexOf(s[1..], c)
  }

  /** The index of the first character satisfying `p`, or `|s|`. */
  function FirstWhere(s: string, p: char -> bool): (k: nat)
    ensures k <= |s|
    ensures forall j :: 0 <= j < k ==> !p(s[j])
    ensures k < |s| ==> p(s[k])
  {
    if s == [] || p(s[0]) then 0 else 1 + FirstWhere(s[1..], p)
  }

  /** `s.split(c)` for a one-character separator. */
  function Split(s: string, c: char): (parts: seq<string>)
    ensures |parts| >= 1
    ensures forall i :: 0 <= i < |parts| ==> c !in parts[i]
    decreases |s|
  {
    var k := IndexOf(s, c);
    if k == |s| then
      assert c !in s;
      [s]
    else
      assert c !in s[..k];
      [s[..k]] + Split(s[k + 1..], c)
  }

  /** `c.join(parts)` */
  function Join(parts: seq<string>, c: char): string {
    if |parts| == 0 then []
    else if |parts| == 1 then parts[0]
    else parts[0] + [c] + Join(parts[1..], c)
  }

  /** Splitting and re-joining on the same separator gives back the input. */
  lemma {:induction false} JoinSplit(s: string, c: char)
    ensures Join(Split(s, c), c) == s
    decreases |s|
  {
    var k := IndexOf(s, c);
    if k < |s| {
      var rest := Split(s[k + 1..], c);
      JoinSplit(s[k + 1..], c);
      assert Split(s, c) == [s[..k]] + rest;
      assert s == s[..k] + [c] + s[k + 1..];
    }
  }

  /** There are at least two pieces exactly when the separator occurs; the
      first piece is the text before its first occurrence and the others,
      joined again, the text after it. */
  lemma SplitAtFirst(s: string, c: char)
    ensures |Split(s, c)| >= 2 <==> c in s
    ensures Split(s, c)[0] == s[..IndexOf(s, c)]
    ensures c in s ==> Join(Split(s, c)[1..], c) == s[IndexOf(s, c) + 1..]
  {
    var k := IndexOf(s, c);
    if k < |s| {
      JoinSplit(s[k + 1..], c);
      assert Split(s, c)[1..] == Split(s[k + 1..], c);
    } else {
      assert c !in s;
    }
  }

  /** `s.replace(a, b)` for one character by one character. */
  function ReplaceChar(s: string, a: char, b: char): (r: string)
    ensures |r| == |s|
    ensures forall i :: 0 <= i < |s| ==> r[i] == (if s[i] == a then b else s[i])
    ensures a != b ==> a !in r
  {
    seq(|s|, i requires 0 <= i < |s| => if s[i] == a then b else s[i])
  }

  /** `s.split()`: the maximal runs of non-whitespace characters. */
  function Words(s: string): (ws: seq<string>)
    ensures forall i :: 0 <= i < |ws| ==> ws[i] != [] && AllChars(ws[i], IsNotSpace)
    decreases |s|
  {
    var t := LStrip(s, IsSpace);
    if t == [] then []
    else
      var k := FirstWhere(t, IsSpace);
      FirstWord(s);
      [t[..k]] + Words(t[k..])
  }

  /** After the leading whitespace, the first word is non-empty, free of
      whitespace, and what follows it is shorter than the input. */
  lemma FirstWord(s: string)
    requires LStrip(s, IsSpace) != []
    ensures var t := LStrip(s, IsSpace); var k := FirstWhere(t, IsSpace);
      0 < k <= |t| && |t[k..]| < |s| && AllChars(t[..k], IsNotSpace)
  {
    var d := LeadingDropped(s, IsSpace);
    var t := LStrip(s, IsSpace);
    var k := FirstWhere(t, IsSpace);
    assert t[0] == s[d];
    forall i | 0 <= i < k ensures IsNotSpace(t[..k][i]) {
      assert t[..k][i] == t[i];
    }
  }

  /** The text that has `gaps[0]` before the first word, `gaps[i]` between
      word `i - 1` and word `i`, and the last gap after the last word. */
  function Interleave(gaps: seq<string>, ws: seq<string>): string
    requires |gaps| == |ws| + 1
    decreases |ws|
  {
    if ws == [] then gaps[0] else gaps[0] + ws[0] + Interleave(gaps[1..], ws[1..])
  }

  /** The words are the maximal runs of non-whitespace: the input is its
      words with whitespace-only gaps around them, and no gap between two
      words is empty. */
  lemma {:induction false} WordsAreRuns(s: string) returns (gaps: seq<string>)
    ensures |gaps| == |Words(s)| + 1
    ensures forall i :: 0 <= i < |gaps| ==> AllChars(gaps[i], IsSpace)
    ensures forall i :: 0 < i < |Words(s)| ==> gaps[i] != []
    ensures s == Interleave(gaps, Words(s))
    decreases |s|
  {
    var d := LeadingDropped(s, IsSpace);
    var t := LStrip(s, IsSpace);
    LeadIsSpace(s);
    if t == [] {
      gaps := [s];
      assert Words(s) == [];
    } else {
      var k := FirstWhere(t, IsSpace);
      FirstWord(s);
      var rest := t[k..];
      var g := WordsAreRuns(rest);
      WordsStep(s, d, t, k);
      gaps := RunsCons(s[..d], t[..k], rest, g, Words(rest));
    }
  }

  /** How `Words` splits a text that has a word: the lead `s[..d]`, the
      first word `t[..k]` and the rest `t[k..]`. */
  lemma WordsStep(s: string, d: nat, t: string, k: nat)
    requires d == LeadingDropped(s, IsSpace) && t == LStrip(s, IsSpace) && t != []
    requires k == FirstWhere(t, IsSpace)
    ensures Words(s) == [t[..k]] + Words(t[k..])
    ensures s == s[..d] + t[..k] + t[k..]
    ensures Words(t[k..]) != [] ==> t[k..] != [] && IsSpace(t[k..][0])
  {
    LeadIsSpace(s);
    Cut(t, k);
    if Words(t[k..]) != [] {
      assert t[k..] != [];
      assert t[k] == t[k..][0];
    }
  }

  /** One step of `WordsAreRuns`: a whitespace lead, a word and a rest that
      is already split into gaps and words. */
  lemma RunsCons(lead: string, w: string, rest: string, g: seq<string>, ws: seq<string>)
    returns (gaps: seq<string>)
    requires AllChars(lead, IsSpace) && w != []
    requires |g| == |ws| + 1 && rest == Interleave(g, ws)
    requires forall i :: 0 <= i < |g| ==> AllChars(g[i], IsSpace)
    requires forall i :: 0 < i < |ws| ==> g[i] != []
    requires ws != [] ==> ws[0] != [] && !IsSpace(ws[0][0]) && rest != [] && IsSpace(rest[0])
    ensures |gaps| == |ws| + 2
    ensures forall i :: 0 <= i < |gaps| ==> AllChars(gaps[i], IsSpace)
    ensures forall i :: 0 < i < |ws| + 1 ==> gaps[i] != []
    ensures lead + w + rest == Interleave(gaps, [w] + ws)
  {
    gaps := [lead] + g;
    assert gaps[1..] == g && gaps[0] == lead;
    assert ([w] + ws)[0] == w && ([w] + ws)[1..] == ws;
    if ws != [] {
      InterleaveHead(g, ws);
    }
    assert forall i :: 0 < i < |gaps| ==> gaps[i] == g[i - 1];
  }

  lemma Cut(t: string, k: nat)
    requires k <= |t|
    ensures t == t[..k] + t[k..]
  {
  }

  /** The leading run `lstrip` drops is whitespace, and it and the rest make the input. */
  lemma LeadIsSpace(s: string)
    ensures var d := LeadingDropped(s, IsSpace);
      AllChars(s[..d], IsSpace) && s == s[..d] + LStrip(s, IsSpace)
  {
    var d := LeadingDropped(s, IsSpace);
    forall i | 0 <= i < d ensures IsSpace(s[..d][i]) {
      assert s[..d][i] == s[i];
    }
  }

  /** With an empty first gap the text begins with the first word. */
  lemma InterleaveHead(gaps: seq<string>, ws: seq<string>)
    requires |gaps| == |ws| + 1 && ws != [] && ws[0] != []
    ensures gaps[0] == [] ==> Interleave(gaps, ws)[0] == ws[0][0]
  {
    assert Interleave(gaps, ws) == gaps[0] + ws[0] + Interleave(gaps[1..], ws[1..]);
  }

  /** Words one after the other. */
  function Concat(ws: seq<string>): string {
    if ws == [] then [] else ws[0] + Concat(ws[1..])
  }

  /** Dropping the whitespace of a text made of whitespace gaps and
      whitespace-free words leaves the words. */
  lemma {:induction false} KeepInterleave(gaps: seq<string>, ws: seq<string>)
    requires |gaps| == |ws| + 1
    requires forall i :: 0 <= i < |gaps| ==> AllChars(gaps[i], IsSpace)
    requires forall i :: 0 <= i < |ws| ==> AllChars(ws[i], IsNotSpace)
    ensures Keep(Interleave(gaps, ws), IsNotSpace) == Concat(ws)
    decreases |ws|
  {
    NoneKept(gaps[0]);
    if ws != [] {
      KeepInterleave(gaps[1..], ws[1..]);
      KeepConcat(gaps[0] + ws[0], Interleave(gaps[1..], ws[1..]), IsNotSpace);
      KeepConcat(gaps[0], ws[0], IsNotSpace);
      KeepAll(ws[0], IsNotSpace);
    }
  }

  lemma {:induction false} NoneKept(s: string)
    requires AllChars(s, IsSpace)
    ensures Keep(s, IsNotSpace) == []
  {
    if s != [] {
      NoneKept(s[1..]);
    }
  }

  /** Dropping the whitespace of words joined by spaces leaves the words. */
  lemma {:induction false} KeepJoin(ws: seq<string>)
    requires forall i :: 0 <= i < |ws| ==> AllChars(ws[i], IsNotSpace)
    ensures Keep(Join(ws, ' '), IsNotSpace) == Concat(ws)
  {
    if |ws| == 1 {
      KeepAll(ws[0], IsNotSpace);
      assert Concat(ws) == ws[0] + Concat([]);
    } else if |ws| > 1 {
      KeepJoin(ws[1..]);
      KeepConcat(ws[0] + [' '], Join(ws[1..], ' '), IsNotSpace);
      KeepConcat(ws[0], [' '], IsNotSpace);
      KeepAll(ws[0], IsNotSpace);
    }
  }

  /** A text whose only whitespace is single spaces between non-whitespace
      characters: what `' '.join(s.split())` produces. */
  predicate SingleSpaced(v: string) {
    && (v == [] || (!IsSpace(v[0]) && !IsSpace(v[|v| - 1])))
    && forall i :: 0 <= i < |v| && IsSpace(v[i]) ==> v[i] == ' ' && i + 1 < |v| && !IsSpace(v[i + 1])
  }

  /** Non-empty whitespace-free words joined by single spaces are single spaced. */
  lemma {:induction false} JoinSingleSpaced(ws: seq<string>)
    requires forall i :: 0 <= i < |ws| ==> ws[i] != [] && AllChars(ws[i], IsNotSpace)
    ensures SingleSpaced(Join(ws, ' '))
    ensures ws != [] ==> Join(ws, ' ') != [] && Join(ws, ' ')[0] == ws[0][0]
  {
    if |ws| > 1 {
      var w := ws[0];
      var j := Join(ws[1..], ' ');
      JoinSingleSpaced(ws[1..]);
      var v := w + [' '] + j;
      assert Join(ws, ' ') == v;
      assert forall i :: 0 <= i < |w| ==> v[i] == w[i];
      assert j[0] == ws[1][0];
      forall i | 0 <= i < |v| && IsSpace(v[i])
        ensures v[i] == ' ' && i + 1 < |v| && !IsSpace(v[i + 1])
      {
        if i == |w| {
          assert v[i + 1] == j[0];
        } else {
          assert v[i] == j[i - |w| - 1];
          assert i + 1 < |v| ==> v[i + 1] == j[i - |w|];
        }
      }
      assert v[0] == w[0] && v[|v| - 1] == j[|j| - 1];
    }
  }

  /** Replacing one character by another commutes with dropping the
      whitespace when neither of them is whitespace. */
  lemma {:induction false} KeepReplace(s: string, a: char, b: char)
    requires !IsSpace(a) && !IsSpace(b)
    ensures Keep(ReplaceChar(s, a, b), IsNotSpace) == ReplaceChar(Keep(s, IsNotSpace), a, b)
  {
    if s != [] {
      KeepReplace(s[1..], a, b);
      assert ReplaceChar(s, a, b) == ReplaceChar([s[0]], a, b) + ReplaceChar(s[1..], a, b);
      var k := Keep(s[1..], IsNotSpace);
      var h := if IsNotSpace(s[0]) then [s[0]] else [];
      assert Keep(s, IsNotSpace) == h + k;
      assert ReplaceChar(h + k, a, b) == ReplaceChar(h, a, b) + ReplaceChar(k, a, b);
    }
  }

  /** `' '.join(s.split())`: whitespace runs collapsed to one space, ends trimmed. */
  function CollapseSpaces(s: string): string {
    Join(Words(s), ' ')
  }

  /** Leading whitespace does not change where the stripped text starts. */
  lemma {:induction false} LStripLead(g: string, x: string)
    requires AllChars(g, IsSpace)
    ensures LStrip(g + x, IsSpace) == LStrip(x, IsSpace)
    decreases |g|
  {
    if g != [] {
      AllCharsSlice(g, 1, |g|, IsSpace);
      LStripLead(g[1..], x);
      assert (g + x)[1..] == g[1..] + x;
      assert IsSpace(g[0]);
    } else {
      assert g + x == x;
    }
  }

  /** Whitespace in front of a text changes none of its words. */
  lemma WordsLead(g: string, x: string)
    requires AllChars(g, IsSpace)
    ensures Words(g + x) == Words(x)
  {
    LStripLead(g, x);
  }

  /** The first whitespace of a word followed by whitespace or nothing is the word's end. */
  lemma {:induction false} FirstWhereAfter(w: string, r: string)
    requires AllChars(w, IsNotSpace) && (r == [] || IsSpace(r[0]))
    ensures FirstWhere(w + r, IsSpace) == |w|
    decreases |w|
  {
    if w != [] {
      AllCharsSlice(w, 1, |w|, IsNotSpace);
      FirstWhereAfter(w[1..], r);
      assert (w + r)[1..] == w[1..] + r;
      assert !IsSpace(w[0]);
    } else {
      assert w + r == r;
    }
  }

  /** A word followed by whitespace or nothing is the first word. */
  lemma WordsWordFirst(w: string, r: string)
    requires w != [] && AllChars(w, IsNotSpace) && (r == [] || IsSpace(r[0]))
    ensures Words(w + r) == [w] + Words(r)
  {
    var t := w + r;
    assert !IsSpace(t[0]);
    assert LeadingDropped(t, IsSpace) == 0;
    assert LStrip(t, IsSpace) == t;
    FirstWhereAfter(w, r);
    assert t[..|w|] == w && t[|w|..] == r;
  }

  /** Splitting the single-space join of clean words gives back the words. */
  lemma {:induction false} WordsOfJoin(ws: seq<string>)
    requires forall i :: 0 <= i < |ws| ==> ws[i] != [] && AllChars(ws[i], IsNotSpace)
    ensures Words(Join(ws, ' ')) == ws
    decreases |ws|
  {
    if |ws| == 1 {
      WordsWordFirst(ws[0], []);
      assert ws[0] + [] == ws[0];
      assert Words([]) == [];
    } else if |ws| > 1 {
      var j := Join(ws[1..], ' ');
      assert forall i :: 0 <= i < |ws[1..]| ==> ws[1..][i] == ws[i + 1];
      WordsOfJoin(ws[1..]);
      assert Join(ws, ' ') == ws[0] + [' '] + j;
      WordsJoinStep(ws[0], j, ws[1..]);
      assert ws == [ws[0]] + ws[1..];
    }
  }

  lemma WordsJoinStep(w: string, j: string, rest: seq<string>)
    requires w != [] && AllChars(w, IsNotSpace) && Words(j) == rest
    ensures Words(w + [' '] + j) == [w] + rest
  {
    assert w + [' '] + j == w + ([' '] + j);
    WordsWordFirst(w, [' '] + j);
    WordsLead([' '], j);
  }

  /** The collapse keeps every non-whitespace character, in order, keeps
      the words apart, and its result is single spaced. */
  lemma CollapseSpacesFacts(s: string)
    ensures Keep(CollapseSpaces(s), IsNotSpace) == Keep(s, IsNotSpace)
    ensures SingleSpaced(CollapseSpaces(s))
    ensures Words(CollapseSpaces(s)) == Words(s)
  {
    WordsOfJoin(Words(s));
    var gaps := WordsAreRuns(s);
    KeepInterleave(gaps, Words(s));
    KeepJoin(Words(s));
    JoinSingleSpaced(Words(s));
  }

  /** A string without whitespace passes the collapse unchanged. */
  lemma CollapseSpacesIdentity(s: string)
    requires AllChars(s, IsNotSpace)
    ensures CollapseSpaces(s) == s
  {
    if s != [] {
      assert LStrip(s, IsSpace) == s;
      assert FirstWhere(s, IsSpace) == |s|;
      assert s[..|s|] == s && s[|s|..] == [];
      assert Words(s) == [s] + Words([]);
    }
  }
}
