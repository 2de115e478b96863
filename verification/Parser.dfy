/**
 * parse_placeholder and get_field_type of pdfconv.py: a repaired token
 * becomes a kind name, a field name, the required/readonly flags and an
 * options map.
 */
module Parser {
  import opened Wrappers
  import opened Text
  import opened Tokens

  /** An option value: the parser only produces text; the driver also stores
      table-cell sizes, which the program later reads back with `float()`. */
  datatype OptionValue = Text(text: string) | Number(value: real)

  type Options = map<string, OptionValue>

  /** What parse_placeholder returns. */
  datatype Placeholder = Placeholder(
    typeName: string,
    name: string,
    required: bool,
    readonly: bool,
    options: Options)

  /** The ValueError of pdfconv.py:306 and 312, with the repaired token. */
  datatype ParseError = InvalidFormat(token: string)

  /** NUMERIC_OPTION_KEYS (pdfconv.py:55-63) */
  const NumericKeys: set<string> := {
    "rowheight", "cellwidth", "columnwidth", "width", "height",
    "required-border-width", "default-border-width"
  }
  /** TEXT_OPTION_KEYS (pdfconv.py:64) */
  const TextKeys: set<string> := {"value", "default", "label", "tooltip", "data", "url"}
  /** SCRIPT_OPTION_KEYS (pdfconv.py:65) */
  const ScriptKeys: set<string> := {"calculation", "validation"}

  // ---------------------------------------------------------------------
  // Pieces of the token

  /** Length of the `[A-Za-z0-9_\-]+` run that starts `s` (0 when there is none). */
  function NameRun(s: string): (n: nat)
    ensures n <= |s|
    ensures AllChars(s[..n], IsNameChar)
    ensures n < |s| ==> !IsNameChar(s[n])
  {
    FirstWhere(s, IsNotNameChar)
  }

  /** What `(.*)` matches: everything up to the first newline. */
  function TakeLine(s: string): string {
    s[..IndexOf(s, '\n')]
  }

  /** Lines 315-317: the tail gets a leading `|` when it has none. */
  function Tail(afterName: string): string {
    var t := TakeLine(afterName);
    if t != [] && t[0] != '|' then "|" + t else t
  }

  /** `[f(x) for x in xs if f(x)]`: each element mapped, the empty results dropped. */
  function MapNonEmpty(xs: seq<string>, f: string -> string): (r: seq<string>)
    ensures |r| <= |xs|
    ensures forall i :: 0 <= i < |r| ==> r[i] != []
  {
    if xs == [] then []
    else
      var init := MapNonEmpty(xs[..|xs| - 1], f);
      var c := f(xs[|xs| - 1]);
      if c != [] then init + [c] else init
  }

  lemma {:induction false} MapNonEmptyCons(a: string, rest: seq<string>, f: string -> string)
    ensures MapNonEmpty([a] + rest, f) == (if f(a) != [] then [f(a)] else []) + MapNonEmpty(rest, f)
    decreases |rest|
  {
    if rest == [] {
      assert ([a] + rest)[..0] == [];
    } else {
      var l := [a] + rest;
      assert l[..|l| - 1] == [a] + rest[..|rest| - 1];
      MapNonEmptyCons(a, rest[..|rest| - 1], f);
    }
  }

  function StripSpace(s: string): string {
    Strip(s, IsSpace)
  }

  /** Lines 320-321: `sub.strip().strip(')}]').strip()` */
  function CleanSub(sub: string): string {
    Strip(Strip(Strip(sub, IsSpace), IsCloser), IsSpace)
  }

  /** Line 318: the field name, then the stripped non-empty `|`-pieces of the tail. */
  function RawSubparts(name: string, tail: string): seq<string> {
    [name] + MapNonEmpty(Split(tail, '|'), StripSpace)
  }

  /** A field name has nothing to clean. */
  lemma NameIsClean(name: string)
    requires name != [] && AllChars(name, IsNameChar)
    ensures CleanSub(name) == name
  {
    forall i | 0 <= i < |name| ensures !IsSpace(name[i]) && !IsCloser(name[i]) {
      assert IsNameChar(name[i]);
    }
    StripNoneOf(name, IsSpace);
    StripNoneOf(name, IsCloser);
  }

  /** Lines 328-329: `flag in [s.lower() for s in subparts]` */
  predicate HasFlag(subparts: seq<string>, flag: string) {
    exists i :: 0 <= i < |subparts| && Lower(subparts[i]) == flag
  }

  // ---------------------------------------------------------------------
  // Options (lines 332-352)

  /** What the value clean-up guarantees for a key, tested in the order
      of lines 341-351: `options`, the numeric keys and every key outside
      the text and script classes lose all whitespace, numeric values also
      every `,`; text values are single spaced; script values are stripped. */
  predicate CleanFor(key: string, v: string) {
    if key == "options" then AllChars(v, IsNotSpace)
    else if key in NumericKeys then AllChars(v, IsNotSpace) && ',' !in v
    else if key in TextKeys then SingleSpaced(v)
    else if key in ScriptKeys then v == [] || (!IsSpace(v[0]) && !IsSpace(v[|v| - 1]))
    else AllChars(v, IsNotSpace)
  }

  /** Lines 341-351: the clean-up each class of key gets. */
  function CleanValue(key: string, value: string): (r: string)
    ensures CleanFor(key, r)
    ensures key == "options" ==> r == Keep(value, IsNotSpace)
    ensures key != "options" && key in NumericKeys ==>
      r == ReplaceChar(Keep(value, IsNotSpace), ',', '.')
    ensures key != "options" && key !in NumericKeys && key in TextKeys ==>
      Keep(r, IsNotSpace) == Keep(value, IsNotSpace) && Words(r) == Words(value)
    ensures key != "options" && key !in NumericKeys && key !in TextKeys && key in ScriptKeys ==>
      exists a, b ::
        && 0 <= a <= b <= |value| && r == value[a..b]
        && AllChars(value[..a], IsSpace) && AllChars(value[b..], IsSpace)
    ensures key != "options" && key !in NumericKeys && key !in TextKeys && key !in ScriptKeys ==>
      r == Keep(value, IsNotSpace)
  {
    if key == "options" then RemoveWhitespace(value)
    else if key in NumericKeys then
      var r := RemoveWhitespace(ReplaceChar(value, ',', '.'));
      KeepReplace(value, ',', '.');
      r
    else if key in TextKeys then
      CollapseSpacesFacts(value);
      CollapseSpaces(value)
    else if key in ScriptKeys then
      StripBetween(value, IsSpace);
      Strip(value, IsSpace)
    else RemoveWhitespace(value)
  }

  /** Line 337: `key.strip().strip(')}]')`, then repaired. */
  function OptionKey(sub: string, i: nat, closest: string -> Option<KeywordIndex>): Option<string>
    requires i <= |sub|
  {
    NormalizeOptionKey(Strip(Strip(sub[..i], IsSpace), IsCloser), closest)
  }

  /** Line 340: `value.strip().strip(')}]')` */
  function OptionValueText(sub: string, i: nat): string
    requires i < |sub|
  {
    Strip(Strip(sub[i + 1..], IsSpace), IsCloser)
  }

  /** One iteration of the options loop: a subpart with a `:` is split at the
      first one, its key repaired, and the cleaned value stored under it;
      a key that repairs to nothing is skipped. */
  function AddOption(opts: Options, sub: string, closest: string -> Option<KeywordIndex>): Options {
    if ':' !in sub then opts
    else
      var i := IndexOf(sub, ':');
      var key := OptionKey(sub, i, closest);
      if key.None? || key.value == [] then opts
      else opts[key.value := Text(CleanValue(key.value, OptionValueText(sub, i)))]
  }

  /** The options map after the loop has seen all of `subs`; a later key wins. */
  function OptionsOf(subs: seq<string>, closest: string -> Option<KeywordIndex>): Options {
    if subs == [] then map[]
    else AddOption(OptionsOf(subs[..|subs| - 1], closest), subs[|subs| - 1], closest)
  }

  // ---------------------------------------------------------------------
  // parse_placeholder (pdfconv.py:298-354)

  /** Lines 318-326: the cleaned subparts, the field name first. */
  function Subparts(name: string, afterName: string): (subs: seq<string>)
    requires name != [] && AllChars(name, IsNameChar)
    ensures |subs| >= 1 && subs[0] == RemoveWhitespace(name)
  {
    var raw := RawSubparts(name, Tail(afterName));
    NameIsClean(name);
    MapNonEmptyCons(name, raw[1..], CleanSub);
    assert raw == [name] + raw[1..];
    [RemoveWhitespace(name)] + MapNonEmpty(raw, CleanSub)[1..]
  }

  /** Lines 328-354: the result assembled from the kind, the name and the subparts. */
  function Assemble(typeName: string, name: string, subs: seq<string>, closest: string -> Option<KeywordIndex>): Placeholder
    requires |subs| >= 1
  {
    Placeholder(typeName, RemoveWhitespace(name), HasFlag(subs, "required"), HasFlag(subs, "readonly"),
                OptionsOf(subs[1..], closest))
  }

  /** The parse of a repaired token. */
  function ParseToken(token: string, closest: string -> Option<KeywordIndex>): Result<Placeholder, ParseError> {
    var parts := Split(token, ':');
    if |parts| < 2 then Failure(InvalidFormat(token))
    else
      var rest := Join(parts[1..], ':');
      var n := NameRun(rest);
      if n == 0 then Failure(InvalidFormat(token))
      else Success(Assemble(Lower(parts[0]), rest[..n], Subparts(rest[..n], rest[n..]), closest))
  }

  /** The parse of a raw placeholder, as a function. */
  function ParseSpec(placeholder: string, closest: string -> Option<KeywordIndex>): Result<Placeholder, ParseError> {
    ParseToken(NormalizeToken(placeholder), closest)
  }

  /** One more element of a prefix: mapped and kept when non-empty. */
  lemma MapNonEmptySnoc(xs: seq<string>, k: nat, f: string -> string)
    requires k < |xs|
    ensures MapNonEmpty(xs[..k + 1], f) ==
      var init := MapNonEmpty(xs[..k], f);
      if f(xs[k]) != [] then init + [f(xs[k])] else init
  {
    var p := xs[..k + 1];
    assert p[..|p| - 1] == xs[..k];
    assert p[|p| - 1] == xs[k];
  }

  method CleanSubpartsLoop(raw: seq<string>) returns (subparts: seq<string>)
    ensures subparts == MapNonEmpty(raw, CleanSub)
  {
    subparts := [];
    for k := 0 to |raw|
      invariant subparts == MapNonEmpty(raw[..k], CleanSub)
    {
      var cleaned := CleanSub(raw[k]);
      MapNonEmptySnoc(raw, k, CleanSub);
      if cleaned != [] {
        subparts := subparts + [cleaned];
      }
    }
    assert raw[..|raw|] == raw;
  }

  /** One more subpart of a prefix: its option added. */
  lemma OptionsOfSnoc(subs: seq<string>, k: nat, closest: string -> Option<KeywordIndex>)
    requires k < |subs|
    ensures OptionsOf(subs[..k + 1], closest) == AddOption(OptionsOf(subs[..k], closest), subs[k], closest)
  {
    var p := subs[..k + 1];
    assert p[..|p| - 1] == subs[..k];
    assert p[|p| - 1] == subs[k];
  }

  method OptionsLoop(later: seq<string>, closest: string -> Option<KeywordIndex>) returns (opts: Options)
    ensures opts == OptionsOf(later, closest)
  {
    opts := map[];
    for k := 0 to |later|
      invariant opts == OptionsOf(later[..k], closest)
    {
      var sub := later[k];
      OptionsOfSnoc(later, k, closest);
      if ':' in sub {
        var i := IndexOf(sub, ':');
        var key := OptionKey(sub, i, closest);
        if key.Some? && key.value != [] {
          opts := opts[key.value := Text(CleanValue(key.value, OptionValueText(sub, i)))];
        }
      }
    }
    assert later[..|later|] == later;
  }

  lemma FlagListed(subs: seq<string>, flag: string)
    ensures (flag in seq(|subs|, i requires 0 <= i < |subs| => Lower(subs[i]))) == HasFlag(subs, flag)
  {
    var lowered := seq(|subs|, i requires 0 <= i < |subs| => Lower(subs[i]));
    if flag in lowered {
      var i :| 0 <= i < |lowered| && lowered[i] == flag;
      assert Lower(subs[i]) == flag;
    }
    if HasFlag(subs, flag) {
      var i :| 0 <= i < |subs| && Lower(subs[i]) == flag;
      assert lowered[i] == flag;
    }
  }

  /** Lines 318-326 step by step. */
  method BuildSubparts(name: string, afterName: string) returns (subparts: seq<string>)
    requires name != [] && AllChars(name, IsNameChar)
    ensures subparts == Subparts(name, afterName)
  {
    var raw := RawSubparts(name, Tail(afterName));
    subparts := CleanSubpartsLoop(raw);
    NameIsClean(name);
    MapNonEmptyCons(name, raw[1..], CleanSub);
    assert raw == [name] + raw[1..];
    subparts := [RemoveWhitespace(name)] + subparts[1..];
  }

  /** Lines 304-354, on the repaired token. */
  method ParseRepaired(token: string, closest: string -> Option<KeywordIndex>)
      returns (r: Result<Placeholder, ParseError>)
    ensures r == ParseToken(token, closest)
  {
    var parts := Split(token, ':');
    if |parts| < 2 {
      return Failure(InvalidFormat(token));
    }
    var typeName := Lower(parts[0]);
    var rest := Join(parts[1..], ':');
    var n := NameRun(rest);
    if n == 0 {
      return Failure(InvalidFormat(token));
    }
    var name := rest[..n];
    var subparts := BuildSubparts(name, rest[n..]);
    var isRequired := "required" in seq(|subparts|, i requires 0 <= i < |subparts| => Lower(subparts[i]));
    var isReadonly := "readonly" in seq(|subparts|, i requires 0 <= i < |subparts| => Lower(subparts[i]));
    FlagListed(subparts, "required");
    FlagListed(subparts, "readonly");
    var opts := OptionsLoop(subparts[1..], closest);
    r := Success(Placeholder(typeName, RemoveWhitespace(name), isRequired, isReadonly, opts));
  }

  method ParsePlaceholder(placeholder: string, closest: string -> Option<KeywordIndex>)
      returns (r: Result<Placeholder, ParseError>)
    ensures r == ParseSpec(placeholder, closest)
  {
    var token := NormalizePlaceholderToken(placeholder);
    r := ParseRepaired(token, closest);
  }

  // ---------------------------------------------------------------------
  // What the parse promises

  /** A field name carries no whitespace. */
  lemma NameHasNoSpace(name: string)
    requires AllChars(name, IsNameChar)
    ensures RemoveWhitespace(name) == name
  {
    forall i | 0 <= i < |name| ensures IsNotSpace(name[i]) {
      assert IsNameChar(name[i]);
    }
    KeepAll(name, IsNotSpace);
  }

  /**
   * The parse of a repaired token fails exactly when the token has no `:` or
   * the text after its first `:` does not start with a name character;
   * otherwise the field name is the whole name run there and the kind name is
   * the lower-cased text before that `:`.
   */
  lemma ParseTokenOutcome(token: string, closest: string -> Option<KeywordIndex>)
    ensures var k := IndexOf(token, ':');
            ParseToken(token, closest).Failure?
            <==> (':' !in token || NameRun(token[k + 1..]) == 0)
    ensures var k := IndexOf(token, ':');
            var r := ParseToken(token, closest);
            r.Success? ==>
              && r.value.name == token[k + 1..][..NameRun(token[k + 1..])]
              && r.value.name != []
              && AllChars(r.value.name, IsNameChar)
              && r.value.typeName == Lower(token[..k])
  {
    SplitAtFirst(token, ':');
    var parts := Split(token, ':');
    if |parts| >= 2 {
      var rest := Join(parts[1..], ':');
      var n := NameRun(rest);
      if n > 0 {
        NameHasNoSpace(rest[..n]);
      }
    }
  }

  /** The same for a raw placeholder, which is repaired first; the kind name
      has no upper-case ASCII letter. */
  lemma ParseOutcome(placeholder: string, closest: string -> Option<KeywordIndex>)
    ensures var token := NormalizeToken(placeholder);
            var k := IndexOf(token, ':');
            ParseSpec(placeholder, closest).Failure?
            <==> (':' !in token || NameRun(token[k + 1..]) == 0)
    ensures var r := ParseSpec(placeholder, closest);
            r.Success? ==>
              && r.value.name != []
              && AllChars(r.value.name, IsNameChar)
              && (forall i :: 0 <= i < |r.value.typeName| ==> !('A' <= r.value.typeName[i] <= 'Z'))
  {
    ParseTokenOutcome(NormalizeToken(placeholder), closest);
  }

  /** The field name is element 0 of the subparts, so a field named
      `Required` (in any case) is a required field. */
  lemma NameCountsAsFlag(token: string, closest: string -> Option<KeywordIndex>)
    requires ParseToken(token, closest).Success?
    requires Lower(ParseToken(token, closest).value.name) == "required"
    ensures ParseToken(token, closest).value.required
  {
    var parts := Split(token, ':');
    var rest := Join(parts[1..], ':');
    var n := NameRun(rest);
    var subs := Subparts(rest[..n], rest[n..]);
    assert Lower(subs[0]) == "required";
  }

  /** Every stored option has a non-empty key and a text value cleaned for its key. */
  predicate CleanOptions(opts: Options) {
    forall key :: key in opts ==> key != [] && opts[key].Text? && CleanFor(key, opts[key].text)
  }

  lemma UpdateKeepsClean(opts: Options, key: string, v: string)
    requires CleanOptions(opts) && key != [] && CleanFor(key, v)
    ensures CleanOptions(opts[key := Text(v)])
  {
    var o := opts[key := Text(v)];
    forall k | k in o ensures k != [] && o[k].Text? && CleanFor(k, o[k].text) {
      if k != key {
        assert o[k] == opts[k];
      }
    }
  }

  lemma AddOptionKeepsClean(opts: Options, sub: string, closest: string -> Option<KeywordIndex>)
    requires CleanOptions(opts)
    ensures CleanOptions(AddOption(opts, sub, closest))
  {
    if ':' in sub {
      var i := IndexOf(sub, ':');
      var key := OptionKey(sub, i, closest);
      if key.Some? && key.value != [] {
        var v := CleanValue(key.value, OptionValueText(sub, i));
        assert CleanFor(key.value, v);
        UpdateKeepsClean(opts, key.value, v);
      }
    }
  }

  lemma {:induction false} OptionsAreClean(subs: seq<string>, closest: string -> Option<KeywordIndex>)
    ensures CleanOptions(OptionsOf(subs, closest))
  {
    if subs != [] {
      OptionsAreClean(subs[..|subs| - 1], closest);
      AddOptionKeepsClean(OptionsOf(subs[..|subs| - 1], closest), subs[|subs| - 1], closest);
    }
  }

  /** The key a subpart stores a value under, if any: AddOption's test. */
  function SubKey(sub: string, closest: string -> Option<KeywordIndex>): Option<string> {
    if ':' !in sub then None
    else
      var key := OptionKey(sub, IndexOf(sub, ':'), closest);
      if key.None? || key.value == [] then None else key
  }

  /** The value a subpart with a key stores. */
  function SubValue(sub: string, closest: string -> Option<KeywordIndex>): OptionValue
    requires SubKey(sub, closest).Some?
  {
    Text(CleanValue(SubKey(sub, closest).value, OptionValueText(sub, IndexOf(sub, ':'))))
  }

  lemma AddOptionBySub(opts: Options, sub: string, closest: string -> Option<KeywordIndex>)
    ensures AddOption(opts, sub, closest) ==
      if SubKey(sub, closest).None? then opts else opts[SubKey(sub, closest).value := SubValue(sub, closest)]
  {
  }

  /** A key is in `opts` exactly when some subpart stores under it, and its
      value is that of the last such subpart. */
  predicate LastWins(opts: Options, subs: seq<string>, closest: string -> Option<KeywordIndex>, k: string) {
    && (k in opts <==> exists j :: 0 <= j < |subs| && SubKey(subs[j], closest) == Some(k))
    && (k in opts ==>
          exists j :: 0 <= j < |subs| && SubKey(subs[j], closest) == Some(k) &&
            opts[k] == SubValue(subs[j], closest) &&
            forall l :: j < l < |subs| ==> SubKey(subs[l], closest) != Some(k))
  }

  /** The options loop stores every key some subpart names, with the value
      of the last subpart naming it: a later key wins. */
  lemma {:induction false} OptionsLastWins(subs: seq<string>, closest: string -> Option<KeywordIndex>, k: string)
    ensures LastWins(OptionsOf(subs, closest), subs, closest, k)
  {
    if subs != [] {
      var init := subs[..|subs| - 1];
      var last := subs[|subs| - 1];
      OptionsLastWins(init, closest, k);
      assert subs == init + [last];
      LastWinsStep(OptionsOf(init, closest), OptionsOf(subs, closest), subs, init, last, closest, k);
    }
  }

  /** One step of OptionsLastWins, over plain maps. */
  lemma LastWinsStep(before: Options, after: Options, subs: seq<string>, init: seq<string>, last: string,
                     closest: string -> Option<KeywordIndex>, k: string)
    requires LastWins(before, init, closest, k)
    requires after == AddOption(before, last, closest) && subs == init + [last]
    ensures LastWins(after, subs, closest, k)
  {
    AddOptionBySub(before, last, closest);
    if SubKey(last, closest) == Some(k) {
      LastWinsHit(after, init, last, closest, k);
    } else {
      assert k in after <==> k in before;
      assert k in before ==> after[k] == before[k];
      LastWinsMiss(before, after, init, last, closest, k);
    }
  }

  /** The last subpart names the key: its value is stored. */
  lemma LastWinsHit(after: Options, init: seq<string>, last: string,
                    closest: string -> Option<KeywordIndex>, k: string)
    requires SubKey(last, closest) == Some(k)
    requires k in after && after[k] == SubValue(last, closest)
    ensures LastWins(after, init + [last], closest, k)
  {
    var subs := init + [last];
    assert subs[|subs| - 1] == last;
  }

  /** The last subpart does not name the key: the entry stays as it was. */
  lemma LastWinsMiss(before: Options, after: Options, init: seq<string>, last: string,
                     closest: string -> Option<KeywordIndex>, k: string)
    requires LastWins(before, init, closest, k)
    requires SubKey(last, closest) != Some(k)
    requires (k in after <==> k in before) && (k in before ==> after[k] == before[k])
    ensures LastWins(after, init + [last], closest, k)
  {
    if k in before {
      var j :| 0 <= j < |init| && SubKey(init[j], closest) == Some(k) &&
        before[k] == SubValue(init[j], closest) &&
        forall l :: j < l < |init| ==> SubKey(init[l], closest) != Some(k);
      MissKept(after, init, last, closest, k, j);
    } else {
      MissAbsent(after, init, last, closest, k);
    }
  }

  lemma MissKept(after: Options, init: seq<string>, last: string,
                 closest: string -> Option<KeywordIndex>, k: string, j: nat)
    requires SubKey(last, closest) != Some(k)
    requires j < |init| && SubKey(init[j], closest) == Some(k)
    requires forall l :: j < l < |init| ==> SubKey(init[l], closest) != Some(k)
    requires k in after && after[k] == SubValue(init[j], closest)
    ensures LastWins(after, init + [last], closest, k)
  {
    var subs := init + [last];
    var n := |subs|;
    assert subs[j] == init[j];
    forall l | j < l < n ensures SubKey(subs[l], closest) != Some(k) {
      if l < n - 1 {
        assert subs[l] == init[l];
      } else {
        assert subs[l] == last;
      }
    }
  }

  lemma MissAbsent(after: Options, init: seq<string>, last: string,
                   closest: string -> Option<KeywordIndex>, k: string)
    requires SubKey(last, closest) != Some(k)
    requires forall j :: 0 <= j < |init| ==> SubKey(init[j], closest) != Some(k)
    requires k !in after
    ensures LastWins(after, init + [last], closest, k)
  {
    var subs := init + [last];
    var n := |subs|;
    forall j | 0 <= j < n ensures SubKey(subs[j], closest) != Some(k) {
      if j < n - 1 {
        assert subs[j] == init[j];
      } else {
        assert subs[j] == last;
      }
    }
  }

  // ---------------------------------------------------------------------
  // get_field_type (pdfconv.py:356-438)

  /** The PyMuPDF widget types the table maps onto. */
  datatype WidgetType = TextWidget | CheckBox | RadioButton | ComboBox | ListBox | Button | Signature

  /** The names of the table of pdfconv.py:361-436 that map to a widget other
      than text, grouped by that widget. Every other listed name maps to the
      text widget, which is also the default for an unlisted name, so those
      names need not be written out. */
  const ComboKinds: set<string> := {"combobox", "dropdownlist"}
  const ButtonKinds: set<string> := {
    "pushbutton", "submitbutton", "resetbutton", "imagebutton", "imagefield", "fileattachmentfield"
  }
  const SignatureKinds: set<string> := {"signaturefield", "digitalsignaturefield"}
  const NonTextKinds: set<string> :=
    ComboKinds + ButtonKinds + SignatureKinds + {"checkbox", "radiobutton", "listbox"}

  /** `type_map.get(field_type_str, PDF_WIDGET_TYPE_TEXT)`: many-to-one onto
      the seven widget types, text for every name not sent elsewhere. */
  function FieldTypeOf(kind: string): (w: WidgetType)
    ensures w == CheckBox <==> kind == "checkbox"
    ensures w == RadioButton <==> kind == "radiobutton"
    ensures w == ListBox <==> kind == "listbox"
    ensures w == ComboBox <==> kind in ComboKinds
    ensures w == Button <==> kind in ButtonKinds
    ensures w == Signature <==> kind in SignatureKinds
    ensures w == TextWidget <==> kind !in NonTextKinds
  {
    if kind == "checkbox" then CheckBox
    else if kind == "radiobutton" then RadioButton
    else if kind == "listbox" then ListBox
    else if kind in ComboKinds then ComboBox
    else if kind in ButtonKinds then Button
    else if kind in SignatureKinds then Signature
    else TextWidget
  }
}
