/**
 * The decisions of add_form_field (pdfconv.py:653-1122), written as a pure
 * builder: from the parsed placeholder, the placement rectangle and the font
 * size to a record of the widget attributes the program sets (all but the
 * text colour, which only feeds the backend), followed by
 * the radio policy that decides what happens when the backend refuses the
 * widget, and the choice of a check box's on-state once it exists.
 */
module Widgets {
  import opened Wrappers
  import opened Text
  import opened Geometry
  import opened Parser

  // ---------------------------------------------------------------------
  // Export values (pdfconv.py:143-154)

  /** `_normalize_export_value`: only the ASCII letters and digits are kept
      and the first of them is upper-cased; `Yes` when none is left. */
  function ExportValue(value: string): (e: string)
    ensures e != [] && AllChars(e, IsAsciiAlnum)
    ensures !('a' <= e[0] <= 'z')
    ensures Keep(value, IsAsciiAlnum) == [] ==> e == "Yes"
    ensures Keep(value, IsAsciiAlnum) != [] ==>
      |e| == |Keep(value, IsAsciiAlnum)| &&
      LowerChar(e[0]) == LowerChar(Keep(value, IsAsciiAlnum)[0]) &&
      e[1..] == Keep(value, IsAsciiAlnum)[1..]
  {
    var c := Keep(value, IsAsciiAlnum);
    if c == [] then "Yes" else [UpperChar(c[0])] + c[1..]
  }

  /** An export value is its own export value, so `_ensure_radio_state`
      (pdfconv.py:180-192), which normalises the already normalised value
      again, sets the caption the builder chose. */
  lemma ExportValueIdempotent(value: string)
    ensures ExportValue(ExportValue(value)) == ExportValue(value)
  {
    var e := ExportValue(value);
    KeepAll(e, IsAsciiAlnum);
  }

  // ---------------------------------------------------------------------
  // Placement rectangle (pdfconv.py:494-503)

  /** `_snap_rect`: check boxes and radio buttons get the centred square of
      the rectangle, every other widget the rectangle itself. */
  function SnapRect(r: Rect, w: WidgetType): (s: Rect)
    ensures w != CheckBox && w != RadioButton ==> s == r
    ensures w == CheckBox || w == RadioButton ==>
      Width(s) == Height(s) == Min(Width(r), Height(r)) &&
      (WellFormed(r) ==> Inside(s, r))
  {
    if w == CheckBox || w == RadioButton then CenterSquare(r) else r
  }

  // ---------------------------------------------------------------------
  // Field flags

  datatype Flag = ReadOnly | Required | Multiline | Password | MultiSelect | DoNotScroll | RichText | Hidden

  /** The bit of each flag in the field-flags word, counted from 1 at the
      low-order end as sections 12.7.3.1 (common flags), 12.7.4.3 (text
      fields) and 12.7.4.4 (choice fields) of ISO 32000-1 number them. The
      hidden flag of pdfconv.py:746-747 is not a field flag of that standard. */
  function BitPosition(f: Flag): (p: Option<nat>)
    ensures p.None? <==> f == Hidden
    ensures p.Some? ==> 1 <= p.value <= 26
  {
    match f
    case ReadOnly => Some(1)
    case Required => Some(2)
    case Multiline => Some(13)
    case Password => Some(14)
    case MultiSelect => Some(22)
    case DoNotScroll => Some(24)
    case RichText => Some(26)
    case Hidden => None
  }

  function Pow2(n: nat): (p: nat)
    ensures p >= 1
  {
    if n == 0 then 1 else 2 * Pow2(n - 1)
  }

  /** The value a flag ORs into the flags word. */
  function Mask(f: Flag): (m: nat)
    requires f != Hidden
    ensures m >= 1
  {
    Pow2(BitPosition(f).value - 1)
  }

  /** The numbers the program ORs in (pdfconv.py:134-137 and 750) are the
      masks of the standard's bits. */
  lemma SourceMasks()
    ensures Mask(ReadOnly) == 1 && Mask(Required) == 2
    ensures Mask(MultiSelect) == 0x20_0000 && Mask(DoNotScroll) == 0x80_0000
  {
    assert Pow2(21) == 0x20_0000 by {
      assert Pow2(10) == 1024;
      assert Pow2(20) == 1024 * 1024 by { Pow2Add(10, 10); }
    }
    assert Pow2(23) == 0x80_0000 by {
      Pow2Add(20, 3);
      assert Pow2(20) == 1024 * 1024 by { Pow2Add(10, 10); }
    }
  }

  lemma {:induction false} Pow2Add(a: nat, b: nat)
    ensures Pow2(a + b) == Pow2(a) * Pow2(b)
    decreases b
  {
    if b > 0 {
      Pow2Add(a, b - 1);
      assert Pow2(a + b) == 2 * Pow2(a + b - 1);
    }
  }

  /** Different flags occupy different bits. */
  lemma BitPositionsDistinct(f: Flag, g: Flag)
    requires f != g && f != Hidden && g != Hidden
    ensures BitPosition(f) != BitPosition(g)
  {
  }

  // ---------------------------------------------------------------------
  // Options as the builder reads them

  /** Every option the builder reads as text holds text: only the table
      sizes of pdfconv.py:1188-1190 are stored as numbers. */
  predicate TextValued(opts: Options) {
    forall k :: k in opts && k != "cellwidth" && k != "rowheight" ==> opts[k].Text?
  }

  /** `options_dict.get(key)`, with a missing key read as the empty text
      (both are false in a truth test). */
  function Get(opts: Options, key: string): string
    requires TextValued(opts)
    requires key != "cellwidth" && key != "rowheight"
  {
    if key in opts then opts[key].text else ""
  }

  /** `options_dict.get('value') or options_dict.get('default')` */
  function Provided(opts: Options): string
    requires TextValued(opts)
  {
    if Get(opts, "value") != [] then Get(opts, "value") else Get(opts, "default")
  }

  // ---------------------------------------------------------------------
  // The descriptor

  datatype RadioMode = Fallback | SkipRadios | Strict
  datatype Color = Color(red: real, green: real, blue: real)
  datatype ButtonKind = Push | Submit | Reset

  /** The arguments of add_form_field the decisions depend on. */
  datatype Request = Request(
    rect: Rect,
    widget: WidgetType,
    name: string,
    required: bool,
    readonly: bool,
    options: Options,
    kind: string,
    fontName: string,
    fontSize: real,
    mode: RadioMode)

  /** Every widget attribute add_form_field sets; `None` (or `[]` for the
      choices) is an attribute it leaves alone. */
  datatype Descriptor = Descriptor(
    name: string,
    widget: WidgetType,
    rect: Rect,
    flags: set<Flag>,
    fontName: Option<string>,
    fontSize: Option<real>,
    value: Option<string>,
    choices: seq<string>,
    caption: Option<string>,
    buttonKind: Option<ButtonKind>,
    submitUrl: Option<string>,
    tooltip: Option<string>,
    formatScript: Option<string>,
    script: Option<string>,
    maxLen: Option<int>,
    rbParent: Option<nat>,
    digitalSignature: bool,
    borderColor: Color,
    borderWidth: real,
    zeroTextMargin: bool,
    borderStyle: Option<string>)

  /** A float() that fails (the uncaught ValueError of pdfconv.py:925-936)
      or a radio button the backend refused in strict mode. */
  datatype FieldError = NotANumber(key: string, text: string) | RadioRejected(name: string)

  // ---------------------------------------------------------------------
  // Radio export value (pdfconv.py:666-670)

  /** The radio export value: from `value`, else `default`, else the field
      name, normalised. */
  function RadioExport(q: Request): string
    requires TextValued(q.options)
  {
    var v := Provided(q.options);
    ExportValue(if v != [] then v else q.name)
  }

  /** The request as the rest of the function sees it: a radio button's
      options hold the export value under `value`. */
  function Prepared(q: Request): (p: Request)
    requires TextValued(q.options)
    ensures TextValued(p.options)
    ensures p.widget == RadioButton ==> Get(p.options, "value") == RadioExport(q)
    ensures p.widget != RadioButton ==> p == q
    ensures p.(options := q.options) == q
  {
    if q.widget == RadioButton then q.(options := q.options["value" := Text(RadioExport(q))])
    else q
  }

  // ---------------------------------------------------------------------
  // Common set-up (pdfconv.py:691-730)

  const TextLike: set<WidgetType> := {TextWidget, ComboBox, ListBox}

  /** A check box's caption: the provided value, or `Yes` when only an empty
      `default` was given. */
  function CheckBoxCaption(opts: Options): (c: Option<string>)
    requires TextValued(opts)
    ensures c.Some? <==> Provided(opts) != [] || "default" in opts
    ensures c.Some? && Provided(opts) != [] ==> c.value == Provided(opts)
    ensures c.Some? && Provided(opts) == [] ==> c.value == "Yes"
  {
    if Provided(opts) != [] then Some(Provided(opts))
    else if "default" in opts then Some("Yes")
    else None
  }

  /** The widget before the type-specific branches: the two common flags,
      the snapped rectangle, the font of text-like widgets, a check box's
      caption and a radio button's known group parent (a parent number 0 is
      false in the test of pdfconv.py:723). */
  function Placed(q: Request, existingParent: Option<nat>): (d: Descriptor)
    requires TextValued(q.options)
    ensures d.widget == q.widget && d.name == q.name && d.rect == SnapRect(q.rect, q.widget)
    ensures Required in d.flags <==> q.required
    ensures ReadOnly in d.flags <==> q.readonly
    ensures d.flags <= {Required, ReadOnly}
    ensures d.fontSize.Some? <==> q.widget in TextLike
    ensures d.fontSize.Some? ==> d.fontSize.value == q.fontSize
    ensures d.fontName.Some? <==> q.widget in TextLike
    ensures d.fontName.Some? ==> d.fontName.value == q.fontName
    ensures d.caption.Some? ==> q.widget == CheckBox
    ensures q.widget == CheckBox ==> d.caption == CheckBoxCaption(q.options)
    ensures d.rbParent.Some? ==> q.widget == RadioButton && existingParent == d.rbParent && d.rbParent.value != 0
    ensures q.widget == RadioButton && existingParent.Some? && existingParent.value != 0 ==> d.rbParent == existingParent
    ensures d.value.None? && d.choices == [] && d.buttonKind.None? && d.submitUrl.None? && d.tooltip.None?
    ensures d.formatScript.None? && d.script.None? && d.maxLen.None? && !d.digitalSignature
    ensures !d.zeroTextMargin && d.borderStyle.None?
  {
    var flags := (if q.required then {Required} else {}) + (if q.readonly then {ReadOnly} else {});
    var text := q.widget in TextLike;
    Descriptor(
      q.name, q.widget, SnapRect(q.rect, q.widget), flags,
      if text then Some(q.fontName) else None,
      if text then Some(q.fontSize) else None,
      None, [],
      if q.widget == CheckBox then CheckBoxCaption(q.options) else None,
      None, None, None, None, None, None,
      if q.widget == RadioButton && existingParent.Some? && existingParent.value != 0 then existingParent else None,
      false, Color(0.0, 0.0, 0.0), 0.0, false, None)
  }

  // ---------------------------------------------------------------------
  // Text fields (pdfconv.py:734-840)

  const MultilineKinds: set<string> := {"multilinetextfield", "richtextfield"}

  /** The flags the text branch adds for a kind: multiline for the two
      multi-line kinds, rich text, password and hidden for their kinds, and
      do-not-scroll always. */
  function TextFlags(kind: string): (f: set<Flag>)
    ensures DoNotScroll in f
    ensures Multiline in f <==> kind in MultilineKinds
    ensures RichText in f <==> kind == "richtextfield"
    ensures Password in f <==> kind == "passwordfield"
    ensures Hidden in f <==> kind == "hiddenfield"
    ensures f <= {DoNotScroll, Multiline, RichText, Password, Hidden}
  {
    (if kind in MultilineKinds then {Multiline} else {}) +
    (if kind == "richtextfield" then {RichText} else {}) +
    (if kind == "passwordfield" then {Password} else {}) +
    (if kind == "hiddenfield" then {Hidden} else {}) +
    {DoNotScroll}
  }

  /** The JavaScript format and keystroke script pairs of pdfconv.py:775-824. */
  datatype ScriptKind = DateScript | TimeScript | DateTimeScript | NumberScript | DecimalScript
                      | CurrencyScript | PercentScript | EmailScript | PhoneScript

  function FormatScript(k: ScriptKind): Option<string> {
    match k
    case DateScript => Some("AFDate_FormatEx(\"yyyy-mm-dd\");")
    case TimeScript => Some("AFTime_FormatEx(\"HH:MM\");")
    case DateTimeScript => Some("AFDate_FormatEx(\"yyyy-mm-dd HH:MM\");")
    case NumberScript => Some("AFNumber_Format(0, 0, 0, 0, \"\", false);")
    case DecimalScript => Some("AFNumber_Format(2, 0, 0, 0, \"\", false);")
    case CurrencyScript => Some("AFNumber_Format(2, 0, 0, 0, \"$\", false);")
    case PercentScript => Some("AFPercent_Format(2, 0, 0, 0, \"\", false);")
    case EmailScript => None
    case PhoneScript => None
  }

  function KeystrokeScript(k: ScriptKind): string {
    match k
    case DateScript => "AFDate_KeystrokeEx(\"yyyy-mm-dd\");"
    case TimeScript => "AFTime_KeystrokeEx(\"HH:MM\");"
    case DateTimeScript => "AFDate_KeystrokeEx(\"yyyy-mm-dd HH:MM\");"
    case NumberScript => "AFNumber_Keystroke(0, 0, 0, 0, \"\", false);"
    case DecimalScript => "AFNumber_Keystroke(2, 0, 0, 0, \"\", false);"
    case CurrencyScript => "AFNumber_Keystroke(2, 0, 0, 0, \"$\", false);"
    case PercentScript => "AFPercent_Keystroke(2, 0, 0, 0, \"\", false);"
    case EmailScript => "event.rc = /^\\S+@\\S+\\.\\S+$/.test(event.value) || event.value == \"\";"
    case PhoneScript => "event.rc = /^\\d{10}$/.test(event.value.replace(/\\D/g, \"\")) || event.value == \"\";"
  }

  /** The scripts a `format` option asks for (pdfconv.py:775-792). */
  function ScriptForFormat(fmt: string): Option<ScriptKind> {
    if fmt == "date" then Some(DateScript)
    else if fmt == "number" then Some(NumberScript)
    else if fmt == "currency" then Some(CurrencyScript)
    else if fmt == "percent" then Some(PercentScript)
    else if fmt == "email" then Some(EmailScript)
    else if fmt == "phone" then Some(PhoneScript)
    else None
  }

  /** The scripts a kind name asks for (pdfconv.py:793-824). */
  function ScriptForKind(kind: string): Option<ScriptKind> {
    if kind == "datefield" || kind == "date" then Some(DateScript)
    else if kind == "timefield" then Some(TimeScript)
    else if kind == "datetimefield" then Some(DateTimeScript)
    else if kind == "numericfield" || kind == "numberfield" then Some(NumberScript)
    else if kind == "decimalfield" then Some(DecimalScript)
    else if kind == "currencyfield" then Some(CurrencyScript)
    else if kind == "percentfield" then Some(PercentScript)
    else if kind == "emailfield" then Some(EmailScript)
    else if kind == "phonefield" then Some(PhoneScript)
    else None
  }

  /** A `format` option, recognised or not, replaces the kind's own scripts. */
  function ScriptChoice(kind: string, opts: Options): (k: Option<ScriptKind>)
    requires TextValued(opts)
    ensures "format" in opts ==> k == ScriptForFormat(Lower(Get(opts, "format")))
    ensures "format" !in opts ==> k == ScriptForKind(kind)
  {
    if "format" in opts then ScriptForFormat(Lower(Get(opts, "format"))) else ScriptForKind(kind)
  }

  /** The decimal text of an integer, as an f-string writes it. */
  function Digit(d: int): (c: char)
    requires 0 <= d < 10
    ensures '0' <= c <= '9'
  {
    ('0' as int + d) as char
  }

  function Decimal(n: int): (s: string)
    ensures s != [] && '0' <= s[|s| - 1] <= '9'
    ensures forall i :: 0 <= i < |s| ==> s[i] == '-' || '0' <= s[i] <= '9'
    ensures n >= 0 ==> '-' !in s
    decreases if n < 0 then 1 - n else n
  {
    if n < 0 then "-" + Decimal(-n)
    else if n < 10 then [Digit(n)]
    else Decimal(n / 10) + [Digit(n % 10)]
  }

  /** Different numbers have different decimal texts. */
  lemma {:induction false} DecimalInjective(a: nat, b: nat)
    requires Decimal(a) == Decimal(b)
    ensures a == b
    decreases a
  {
    var s := Decimal(a);
    if a >= 10 && b >= 10 {
      assert s[..|s| - 1] == Decimal(a / 10) && s[..|s| - 1] == Decimal(b / 10);
      DecimalInjective(a / 10, b / 10);
      assert s[|s| - 1] == Digit(a % 10) == Digit(b % 10);
    }
  }

  const GuardHead: string :=
    "if (!event.willCommit) {\n" +
    "    var selection = event.selEnd - event.selStart;\n" +
    "    var replacement = event.change ? event.change.length : 0;\n" +
    "    var projected = event.value.length - selection + replacement;\n" +
    "    if (projected > "
  const GuardTail: string := ") {\n        event.rc = false;\n    }\n}"

  /** `_build_length_guard` (pdfconv.py:196-212): nothing for a zero limit,
      otherwise the keystroke script that refuses an edit longer than it. */
  function LengthGuard(limit: int): (g: Option<string>)
    ensures g.None? <==> limit == 0
    ensures g.Some? ==> g.value == GuardHead + Decimal(limit) + GuardTail
    ensures g.Some? ==> !IsSpace(g.value[0]) && !IsSpace(g.value[|g.value| - 1])
  {
    if limit == 0 then None else Some(GuardHead + Decimal(limit) + GuardTail)
  }

  /** Lines 838-840: the guard goes after an existing script, on its own
      line, and the whole is stripped; with no script the guard is the script. */
  function AppendGuard(existing: string, guard: string): string {
    if existing == [] then guard else Strip(existing + "\n" + guard, IsSpace)
  }

  /** A guard is added to, not put in place of, the script already there. */
  lemma GuardAfterScript(existing: string, limit: int)
    requires limit != 0
    requires existing == [] || !IsSpace(existing[0])
    ensures AppendGuard(existing, LengthGuard(limit).value) ==
      if existing == [] then LengthGuard(limit).value else existing + "\n" + LengthGuard(limit).value
  {
    var g := LengthGuard(limit).value;
    if existing != [] {
      var s := existing + "\n" + g;
      assert s[0] == existing[0] && s[|s| - 1] == g[|g| - 1];
      StripNothing(s, IsSpace);
    }
  }

  const BarcodeKinds: set<string> := {"barcodefield", "qrcodefield", "pdf417field", "code128field"}

  /** The keystroke script before the guard: the kind's or the format's,
      replaced by a user script for the calculated and validation kinds. */
  function KindScript(kind: string, opts: Options): Option<string>
    requires TextValued(opts)
  {
    var k := ScriptChoice(kind, opts);
    if kind == "calculatedfield" && "calculation" in opts then Some(Get(opts, "calculation"))
    else if kind == "validationfield" && "validation" in opts then Some(Get(opts, "validation"))
    else if k.Some? then Some(KeystrokeScript(k.value))
    else None
  }

  /** The text branch of add_form_field. */
  function TextSetup(d: Descriptor, kind: string, opts: Options, fontSize: real): (t: Descriptor)
    requires TextValued(opts)
  {
    var flags := d.flags + TextFlags(kind);
    var multiline := kind in MultilineKinds;
    var rect := if multiline then d.rect else d.rect.(y1 := d.rect.y0 + fontSize * 1.5);
    var maxLen := EstimateMaxLength(rect, fontSize, multiline);
    var k := ScriptChoice(kind, opts);
    var value :=
      if kind in BarcodeKinds && "data" in opts then Some(Get(opts, "data"))
      else if "default" in opts then Some(Get(opts, "default"))
      else d.value;
    var script := KindScript(kind, opts);
    var existing := if script.Some? then script.value else "";
    var guard := if maxLen.Some? then LengthGuard(maxLen.value) else None;
    d.(flags := flags, rect := rect, maxLen := maxLen, value := value, zeroTextMargin := true,
       formatScript := if k.Some? then FormatScript(k.value) else None,
       script := if guard.Some? then Some(AppendGuard(existing, guard.value)) else script)
  }

  // ---------------------------------------------------------------------
  // Choice fields (pdfconv.py:843-852)

  /** `[opt.strip() for opt in text.split(',')]` */
  function ChoiceList(text: string): (cs: seq<string>)
    ensures |cs| == |Split(text, ',')| >= 1
    ensures forall i :: 0 <= i < |cs| ==> cs[i] == Strip(Split(text, ',')[i], IsSpace)
  {
    var parts := Split(text, ',');
    seq(|parts|, i requires 0 <= i < |parts| => Strip(parts[i], IsSpace))
  }

  predicate HasMultiKey(opts: Options) {
    exists k :: k in opts && Lower(k) == "multi"
  }

  /** The choice branch: the listed options, the first of them as value
      unless a `default` is given, and multi-select for a list box with a
      `multi` key in any case. */
  function ChoiceSetup(d: Descriptor, opts: Options): (c: Descriptor)
    requires TextValued(opts)
  {
    var choices := if "options" in opts then ChoiceList(Get(opts, "options")) else d.choices;
    var value :=
      if "default" in opts then Some(Get(opts, "default"))
      else if "options" in opts then Some(choices[0])
      else d.value;
    var flags := if d.widget == ListBox && HasMultiKey(opts) then d.flags + {MultiSelect} else d.flags;
    d.(choices := choices, value := value, flags := flags)
  }

  // ---------------------------------------------------------------------
  // Buttons (pdfconv.py:863-883) and signatures (pdfconv.py:886-919)

  function ButtonKindOf(kind: string): Option<ButtonKind> {
    if kind == "pushbutton" || kind == "imagebutton" then Some(Push)
    else if kind == "submitbutton" then Some(Submit)
    else if kind == "resetbutton" then Some(Reset)
    else None
  }

  /** The button branch: sub-type, caption (the label, else a default for
      the three plain kinds), a submit URL and the tooltip. */
  function ButtonSetup(d: Descriptor, kind: string, opts: Options): Descriptor
    requires TextValued(opts)
  {
    var caption :=
      if "label" in opts then Some(Get(opts, "label"))
      else if kind == "pushbutton" then Some("Button")
      else if kind == "submitbutton" then Some("Submit")
      else if kind == "resetbutton" then Some("Reset")
      else d.caption;
    d.(buttonKind := ButtonKindOf(kind), caption := caption,
       submitUrl := if "url" in opts && kind == "submitbutton" then Some(Get(opts, "url")) else d.submitUrl,
       tooltip := if "tooltip" in opts then Some(Get(opts, "tooltip")) else d.tooltip)
  }

  /** The signature branch: read-only cleared, no font and no value, a
      `Sign here` tooltip unless a tooltip option was given, and the
      digital-signature flag. */
  function SignatureSetup(d: Descriptor, opts: Options): Descriptor {
    d.(flags := d.flags - {ReadOnly}, fontName := None, fontSize := None, value := None,
       tooltip := if "tooltip" !in opts then Some("Sign here") else d.tooltip,
       digitalSignature := true)
  }

  // ---------------------------------------------------------------------
  // Dimension override (pdfconv.py:921-938)

  const DimensionKeys: set<string> := {"rowheight", "cellwidth", "columnwidth", "width", "height"}

  predicate HasDimension(opts: Options) {
    exists k :: k in opts && k in DimensionKeys
  }

  /** `float(options_dict[key])`: a stored number is itself, a text goes
      through the `float()` oracle. */
  function NumberOf(opts: Options, key: string, parse: string -> Option<real>): Option<real>
    requires key in opts
  {
    match opts[key]
    case Number(x) => Some(x)
    case Text(t) => parse(t)
  }

  /** The key the new width is read from: cellwidth, then columnwidth, then width. */
  function WidthKey(opts: Options): Option<string> {
    if "cellwidth" in opts then Some("cellwidth")
    else if "columnwidth" in opts then Some("columnwidth")
    else if "width" in opts then Some("width")
    else None
  }

  /** The key the new height is read from: rowheight, then height. */
  function HeightKey(opts: Options): Option<string> {
    if "rowheight" in opts then Some("rowheight")
    else if "height" in opts then Some("height")
    else None
  }

  function ErrorText(opts: Options, key: string): string
    requires key in opts
  {
    if opts[key].Text? then opts[key].text else ""
  }

  /** With a dimension option the rectangle keeps its top-left corner and
      takes the width and height the options give, or its own for the one
      they do not give; a value float() refuses aborts. */
  function Resized(d: Descriptor, opts: Options, parse: string -> Option<real>): (r: Result<Descriptor, FieldError>)
    ensures !HasDimension(opts) ==> r == Success(d)
    ensures r.Success? ==> r.value == d.(rect := r.value.rect)
    ensures r.Success? ==> r.value.rect.x0 == d.rect.x0 && r.value.rect.y0 == d.rect.y0
    ensures r.Success? && HasDimension(opts) && WidthKey(opts).Some? ==>
      NumberOf(opts, WidthKey(opts).value, parse) == Some(r.value.rect.x1 - d.rect.x0)
    ensures r.Success? && HasDimension(opts) && WidthKey(opts).None? ==> r.value.rect.x1 == d.rect.x0 + Width(d.rect)
    ensures r.Success? && HasDimension(opts) && HeightKey(opts).Some? ==>
      NumberOf(opts, HeightKey(opts).value, parse) == Some(r.value.rect.y1 - d.rect.y0)
    ensures r.Success? && HasDimension(opts) && HeightKey(opts).None? ==> r.value.rect.y1 == d.rect.y0 + Height(d.rect)
    ensures r.Failure? <==> (HasDimension(opts) &&
      ((WidthKey(opts).Some? && NumberOf(opts, WidthKey(opts).value, parse).None?) ||
       (HeightKey(opts).Some? && NumberOf(opts, HeightKey(opts).value, parse).None?)))
  {
    if !HasDimension(opts) then Success(d)
    else
      var wk := WidthKey(opts);
      var hk := HeightKey(opts);
      var w := if wk.Some? then NumberOf(opts, wk.value, parse) else Some(Width(d.rect));
      if w.None? then Failure(NotANumber(wk.value, ErrorText(opts, wk.value)))
      else
        var h := if hk.Some? then NumberOf(opts, hk.value, parse) else Some(Height(d.rect));
        if h.None? then Failure(NotANumber(hk.value, ErrorText(opts, hk.value)))
        else Success(d.(rect := Rect(d.rect.x0, d.rect.y0, d.rect.x0 + w.value, d.rect.y0 + h.value)))
  }

  // ---------------------------------------------------------------------
  // Border (pdfconv.py:940-953, constants of pdfconv.py:214-218)

  const RequiredBorderColor := Color(1.0, 0.0, 0.0)
  const DefaultBorderColor := Color(0.0, 0.5, 1.0)
  const RequiredBorderWidth := 1.0
  const DefaultBorderWidth := 0.6

  function WithBorder(d: Descriptor, required: bool): Descriptor {
    if required then d.(borderColor := RequiredBorderColor, borderWidth := RequiredBorderWidth, borderStyle := Some("solid"))
    else d.(borderColor := DefaultBorderColor, borderWidth := DefaultBorderWidth, borderStyle := Some("solid"))
  }

  // ---------------------------------------------------------------------
  // The whole set-up before the widget is handed to the backend

  /** The type-specific branches, in the order add_form_field runs them. */
  function Branches(d: Descriptor, q: Request): Descriptor
    requires TextValued(q.options)
  {
    var opts := q.options;
    var t := if q.widget == TextWidget then TextSetup(d, q.kind, opts, q.fontSize) else d;
    var c := if q.widget == ComboBox || q.widget == ListBox then ChoiceSetup(t, opts) else t;
    var r := if q.widget == RadioButton then c.(caption := Some(Get(opts, "value"))) else c;
    var b := if q.widget == Button then ButtonSetup(r, q.kind, opts) else r;
    if q.widget == Signature then SignatureSetup(b, opts) else b
  }

  /** The widget as add_form_field hands it to the backend, for a request
      whose radio export value is already in place. */
  function Configure(p: Request, existingParent: Option<nat>, parse: string -> Option<real>): Result<Descriptor, FieldError>
    requires TextValued(p.options)
  {
    var d := Branches(Placed(p, existingParent), p);
    match Resized(d, p.options, parse)
    case Failure(e) => Failure(e)
    case Success(s) => Success(WithBorder(s, p.required))
  }

  // ---------------------------------------------------------------------
  // After the backend accepted the widget (pdfconv.py:1053-1120)

  predicate IsOffOrNormal(s: string) {
    Lower(s) == "off" || Lower(s) == "normal"
  }

  /** The first appearance state that is neither `off` nor `normal` in any
      case, or the number of states when there is none. */
  function OnState(states: seq<string>): (k: nat)
    ensures k <= |states|
    ensures forall j :: 0 <= j < k ==> IsOffOrNormal(states[j])
    ensures k < |states| ==> !IsOffOrNormal(states[k])
  {
    if states == [] || !IsOffOrNormal(states[0]) then 0 else 1 + OnState(states[1..])
  }

  predicate IsSlash(c: char) { c == '/' }
  predicate IsNotUnderscore(c: char) { c != '_' }

  /** `norm` of pdfconv.py:1075-1078: strip, lower-case, drop leading `/`,
      delete every `_`. */
  function Norm(name: string): string {
    Keep(LStrip(Lower(Strip(name, IsSpace)), IsSlash), IsNotUnderscore)
  }

  /** A normal form has no `_` and no upper-case letter, and a blank name
      has the empty normal form. */
  lemma NormIsFolded(name: string)
    ensures '_' !in Norm(name)
    ensures forall i :: 0 <= i < |Norm(name)| ==> !('A' <= Norm(name)[i] <= 'Z')
    ensures Strip(name, IsSpace) == [] ==> Norm(name) == []
  {
    var l := Lower(Strip(name, IsSpace));
    var r := LStrip(l, IsSlash);
    var n := Norm(name);
    assert forall i :: 0 <= i < |r| ==> r[i] == l[LeadingDropped(l, IsSlash) + i];
    KeepCounts(r, IsNotUnderscore);
    forall i | 0 <= i < |n| ensures !('A' <= n[i] <= 'Z') {
      assert n[i] in multiset(n);
      var j :| 0 <= j < |r| && r[j] == n[i];
    }
  }

  /** The first state whose normal form is that of `provided`, or the
      number of states. */
  function FirstMatch(states: seq<string>, provided: string): (k: nat)
    ensures k <= |states|
    ensures forall j :: 0 <= j < k ==> Norm(states[j]) != Norm(provided)
    ensures k < |states| ==> Norm(states[k]) == Norm(provided)
  {
    IndexOf(Norms(states), Norm(provided))
  }

  /** The normal forms of the states, in order. */
  function Norms(states: seq<string>): (ns: seq<string>)
    ensures |ns| == |states| && forall j :: 0 <= j < |states| ==> ns[j] == Norm(states[j])
  {
    seq(|states|, j requires 0 <= j < |states| => Norm(states[j]))
  }

  /** The value a check box ends with: the first state matching the provided
      value, else the on-state, else the provided value itself; with nothing
      provided, the on-state or what it had. An empty state counts as
      absent, as in the truth tests of pdfconv.py:1080-1101. */
  function CheckBoxValue(states: seq<string>, provided: string, prior: Option<string>): Option<string> {
    var on := OnState(states);
    var onState := if on < |states| && states[on] != [] then Some(states[on]) else None;
    if provided != [] then
      var m := FirstMatch(states, provided);
      if m < |states| && states[m] != [] then Some(states[m])
      else if onState.Some? then onState
      else Some(provided)
    else if onState.Some? then onState
    else prior
  }

  /** A provided value that names a state, up to case, blanks, leading `/`
      and `_`, selects the first such state. */
  lemma ProvidedStateWins(states: seq<string>, provided: string, prior: Option<string>, j: nat)
    requires provided != [] && Norm(provided) != []
    requires j < |states| && Norm(states[j]) == Norm(provided)
    ensures CheckBoxValue(states, provided, prior) == Some(states[FirstMatch(states, provided)])
    ensures FirstMatch(states, provided) <= j
  {
    var m := FirstMatch(states, provided);
    if states[m] == [] {
      NormIsFolded(states[m]);
    }
  }

  /** Without a matching state the check box takes the on-state, the first
      state that is not `off` or `normal`. */
  lemma OnStateChosen(states: seq<string>, provided: string, prior: Option<string>)
    requires FirstMatch(states, provided) == |states| || provided == []
    requires OnState(states) < |states| && states[OnState(states)] != []
    ensures CheckBoxValue(states, provided, prior) == Some(states[OnState(states)])
    ensures forall j :: 0 <= j < OnState(states) ==> IsOffOrNormal(states[j])
  {
  }

  /** The value a radio button ends with: its export value when the backend
      lists it as a state (pdfconv.py:1109-1114). */
  function RadioValue(states: seq<string>, exportValue: string, prior: Option<string>): Option<string> {
    var on := if exportValue != [] then Some(exportValue) else if states != [] then Some(states[0]) else None;
    if on.Some? && on.value != [] && on.value in states then on else prior
  }

  /** The finishing steps after a successful add. */
  function Finalize(d: Descriptor, opts: Options, states: seq<string>): (f: Descriptor)
    requires TextValued(opts)
    ensures f == d.(value := f.value)
  {
    if (d.widget == ComboBox || d.widget == ListBox) && "default" in opts then d.(value := Some(Get(opts, "default")))
    else if d.widget == CheckBox then d.(value := CheckBoxValue(states, Provided(opts), d.value))
    else if d.widget == RadioButton then d.(value := RadioValue(states, Get(opts, "value"), d.value))
    else d
  }

  // ---------------------------------------------------------------------
  // The radio policy (pdfconv.py:717-719, 955-1014)

  /** What the backend does with the widget: whether it takes it, whether it
      takes the check box a refused radio button falls back to, and the
      appearance states the created widget reports. */
  datatype Backend = Backend(accepted: bool, fallbackAccepted: bool, states: seq<string>)

  /** The widget was created (as a check box, if `fellBack`), or dropped. */
  datatype Outcome = Created(widget: Descriptor, fellBack: bool) | Skipped

  /** add_form_field: skip mode drops every radio button before anything is
      tried; a refused widget is dropped, except that a refused radio button
      is re-raised in strict mode and re-issued as a check box on the
      original rectangle in fallback mode. */
  function AddFormField(q: Request, existingParent: Option<nat>, parse: string -> Option<real>, backend: Backend)
    : Result<Outcome, FieldError>
    requires TextValued(q.options)
  {
    if q.widget == RadioButton && q.mode == SkipRadios then Success(Skipped)
    else
      var p := Prepared(q);
      match Configure(p, existingParent, parse)
      case Failure(e) => Failure(e)
      case Success(d) =>
        if backend.accepted then Success(Created(Finalize(d, p.options, backend.states), false))
        else if q.widget != RadioButton then Success(Skipped)
        else if q.mode == Strict then Failure(RadioRejected(q.name))
        else
          var c := d.(widget := CheckBox, rect := SnapRect(q.rect, CheckBox), value := d.caption);
          if backend.fallbackAccepted then Success(Created(Finalize(c, p.options, backend.states), true))
          else Success(Skipped)
  }

  // ---------------------------------------------------------------------
  // What add_form_field promises

  /** The radio policy as a state machine over the backend's answers. */
  lemma RadioPolicy(q: Request, existingParent: Option<nat>, parse: string -> Option<real>, backend: Backend)
    requires TextValued(q.options) && q.widget == RadioButton
    ensures q.mode == SkipRadios ==> AddFormField(q, existingParent, parse, backend) == Success(Skipped)
    ensures q.mode != SkipRadios ==>
      (AddFormField(q, existingParent, parse, backend).Failure? <==>
        Configure(Prepared(q), existingParent, parse).Failure? || (!backend.accepted && q.mode == Strict))
    ensures q.mode == Fallback && !backend.accepted && Configure(Prepared(q), existingParent, parse).Success? ==>
      if backend.fallbackAccepted then
        AddFormField(q, existingParent, parse, backend).Success? &&
        AddFormField(q, existingParent, parse, backend).value.Created? &&
        AddFormField(q, existingParent, parse, backend).value.fellBack &&
        AddFormField(q, existingParent, parse, backend).value.widget.widget == CheckBox &&
        AddFormField(q, existingParent, parse, backend).value.widget.rect == CenterSquare(q.rect)
      else AddFormField(q, existingParent, parse, backend) == Success(Skipped)
  {
  }

  /** The configured widget before Resized and WithBorder, which change
      only its rectangle and its border (colour, width and style). */
  lemma ConfigureSteps(p: Request, parent: Option<nat>, parse: string -> Option<real>)
    requires TextValued(p.options) && Configure(p, parent, parse).Success?
    ensures var b := Branches(Placed(p, parent), p);
      var d := Configure(p, parent, parse).value;
      && Resized(b, p.options, parse).Success?
      && d == b.(rect := d.rect, borderColor := d.borderColor, borderWidth := d.borderWidth, borderStyle := d.borderStyle)
      && d.rect == Resized(b, p.options, parse).value.rect
  {
  }

  /** The flags every widget may carry: required always as asked,
      read-only as asked except on a signature, multi-select exactly on a
      list box with a `multi` key. */
  lemma ConfiguredFlags(p: Request, parent: Option<nat>, parse: string -> Option<real>)
    requires TextValued(p.options) && Configure(p, parent, parse).Success?
    ensures var d := Configure(p, parent, parse).value;
      && (Required in d.flags <==> p.required)
      && (ReadOnly in d.flags <==> p.readonly && p.widget != Signature)
      && (MultiSelect in d.flags <==> p.widget == ListBox && HasMultiKey(p.options))
  {
    ConfigureSteps(p, parent, parse);
    BranchFlags(Placed(p, parent), p);
  }

  /** The text flags: do-not-scroll on every text field, the others on the
      text fields of their kinds, none on any other widget. */
  lemma ConfiguredTextFlags(p: Request, parent: Option<nat>, parse: string -> Option<real>)
    requires TextValued(p.options) && Configure(p, parent, parse).Success?
    ensures var d := Configure(p, parent, parse).value;
      && (DoNotScroll in d.flags <==> p.widget == TextWidget)
      && (Multiline in d.flags <==> p.widget == TextWidget && p.kind in MultilineKinds)
      && (RichText in d.flags <==> p.widget == TextWidget && p.kind == "richtextfield")
      && (Password in d.flags <==> p.widget == TextWidget && p.kind == "passwordfield")
      && (Hidden in d.flags <==> p.widget == TextWidget && p.kind == "hiddenfield")
  {
    ConfigureSteps(p, parent, parse);
    BranchFlags(Placed(p, parent), p);
  }

  /** What the branches do to the flags. */
  lemma BranchFlags(d0: Descriptor, p: Request)
    requires TextValued(p.options) && d0.widget == p.widget
    ensures Branches(d0, p).flags ==
      if p.widget == TextWidget then d0.flags + TextFlags(p.kind)
      else if p.widget == ListBox && HasMultiKey(p.options) then d0.flags + {MultiSelect}
      else if p.widget == Signature then d0.flags - {ReadOnly}
      else d0.flags
  {
  }

  /** Only buttons and signatures get a tooltip: a button the `tooltip`
      option, a signature `Sign here` when that option is absent and none
      at all when it is present. */
  lemma ConfiguredTooltip(p: Request, parent: Option<nat>, parse: string -> Option<real>)
    requires TextValued(p.options) && Configure(p, parent, parse).Success?
    ensures var d := Configure(p, parent, parse).value;
      && (d.tooltip.Some? ==> p.widget == Button || p.widget == Signature)
      && (p.widget == Button ==>
            d.tooltip == if "tooltip" in p.options then Some(Get(p.options, "tooltip")) else None)
      && (p.widget == Signature ==>
            d.tooltip == if "tooltip" in p.options then None else Some("Sign here"))
  {
    ConfigureSteps(p, parent, parse);
  }

  /** A configured widget keeps the top-left corner of its snapped
      rectangle; without a dimension option a single-line text field is
      1.5 font sizes tall and every other widget keeps the snapped
      rectangle. */
  lemma ConfiguredRect(p: Request, parent: Option<nat>, parse: string -> Option<real>)
    requires TextValued(p.options) && Configure(p, parent, parse).Success?
    ensures var d := Configure(p, parent, parse).value;
      var s := SnapRect(p.rect, p.widget);
      && d.rect.x0 == s.x0 && d.rect.y0 == s.y0
      && (!HasDimension(p.options) && p.widget == TextWidget && p.kind !in MultilineKinds ==>
            d.rect == s.(y1 := s.y0 + p.fontSize * 1.5))
      && (!HasDimension(p.options) && !(p.widget == TextWidget && p.kind !in MultilineKinds) ==>
            d.rect == s)
  {
    ConfigureSteps(p, parent, parse);
  }

  /** The length limit and script of the text branch. */
  lemma TextSetupLength(d: Descriptor, kind: string, opts: Options, fontSize: real)
    requires TextValued(opts)
    ensures var t := TextSetup(d, kind, opts, fontSize);
      var multiline := kind in MultilineKinds;
      var r := if multiline then d.rect else d.rect.(y1 := d.rect.y0 + fontSize * 1.5);
      var k := KindScript(kind, opts);
      && t.maxLen == EstimateMaxLength(r, fontSize, multiline)
      && Width(r) == Width(d.rect)
      && (t.maxLen.None? ==> t.script == k)
      && (t.maxLen.Some? ==> (t.maxLen.value >= 1 &&
            t.script == Some(AppendGuard(if k.Some? then k.value else "", LengthGuard(t.maxLen.value).value))))
  {
  }

  /** A text field's length limit is the estimate for its rectangle before
      any dimension override; with a limit the guard script follows the
      kind's script, without one the kind's script is the script. */
  lemma ConfiguredLength(p: Request, parent: Option<nat>, parse: string -> Option<real>)
    requires TextValued(p.options) && Configure(p, parent, parse).Success?
    requires p.widget == TextWidget
    ensures var d := Configure(p, parent, parse).value;
      var multiline := p.kind in MultilineKinds;
      var r := if multiline then p.rect else p.rect.(y1 := p.rect.y0 + p.fontSize * 1.5);
      var k := KindScript(p.kind, p.options);
      && d.maxLen == EstimateMaxLength(r, p.fontSize, multiline)
      && (d.maxLen.None? <==> p.fontSize <= 0.0 || Width(p.rect) <= 0.0)
      && (d.maxLen.None? ==> d.script == k)
      && (d.maxLen.Some? ==> (d.maxLen.value >= 1 &&
            d.script == Some(AppendGuard(if k.Some? then k.value else "", LengthGuard(d.maxLen.value).value))))
  {
    ConfigureSteps(p, parent, parse);
    BranchesLength(p, parent);
  }

  /** ConfiguredLength before Resized and WithBorder. */
  lemma BranchesLength(p: Request, parent: Option<nat>)
    requires TextValued(p.options) && p.widget == TextWidget
    ensures var b := Branches(Placed(p, parent), p);
      var multiline := p.kind in MultilineKinds;
      var r := if multiline then p.rect else p.rect.(y1 := p.rect.y0 + p.fontSize * 1.5);
      var k := KindScript(p.kind, p.options);
      && b.maxLen == EstimateMaxLength(r, p.fontSize, multiline)
      && (b.maxLen.None? <==> p.fontSize <= 0.0 || Width(p.rect) <= 0.0)
      && (b.maxLen.None? ==> b.script == k)
      && (b.maxLen.Some? ==> (b.maxLen.value >= 1 &&
            b.script == Some(AppendGuard(if k.Some? then k.value else "", LengthGuard(b.maxLen.value).value))))
  {
    var d0 := Placed(p, parent);
    assert d0.rect == p.rect;
    TextSetupLength(d0, p.kind, p.options, p.fontSize);
    var t := TextSetup(d0, p.kind, p.options, p.fontSize);
    assert Branches(d0, p) == t;
    var multiline := p.kind in MultilineKinds;
    var r := if multiline then p.rect else p.rect.(y1 := p.rect.y0 + p.fontSize * 1.5);
    assert r == if multiline then d0.rect else d0.rect.(y1 := d0.rect.y0 + p.fontSize * 1.5);
    assert t.maxLen == EstimateMaxLength(r, p.fontSize, multiline);
    assert t.maxLen.None? <==> p.fontSize <= 0.0 || Width(p.rect) <= 0.0;
  }

  /** A choice field lists the comma-separated options and takes the
      `default` option as its value, else the first listed option. */
  lemma ConfiguredChoice(p: Request, parent: Option<nat>, parse: string -> Option<real>)
    requires TextValued(p.options) && Configure(p, parent, parse).Success?
    requires p.widget == ComboBox || p.widget == ListBox
    ensures var d := Configure(p, parent, parse).value;
      && (d.choices == if "options" in p.options then ChoiceList(Get(p.options, "options")) else [])
      && (d.value ==
            if "default" in p.options then Some(Get(p.options, "default"))
            else if "options" in p.options then Some(d.choices[0])
            else None)
  {
    ConfigureSteps(p, parent, parse);
  }

  /** Required fields get the red, wider border; the rest the blue one. */
  lemma ConfiguredBorder(p: Request, parent: Option<nat>, parse: string -> Option<real>)
    requires TextValued(p.options) && Configure(p, parent, parse).Success?
    ensures var d := Configure(p, parent, parse).value;
      && d.borderColor == (if p.required then RequiredBorderColor else DefaultBorderColor)
      && d.borderWidth == (if p.required then RequiredBorderWidth else DefaultBorderWidth)
      && d.borderStyle == Some("solid")
  {
  }

  /** Exactly the text fields get the zero text margin. */
  lemma ConfiguredTextMargin(p: Request, parent: Option<nat>, parse: string -> Option<real>)
    requires TextValued(p.options) && Configure(p, parent, parse).Success?
    ensures Configure(p, parent, parse).value.zeroTextMargin <==> p.widget == TextWidget
  {
    ConfigureSteps(p, parent, parse);
  }

  /** A signature is never read-only and carries no font and no value. */
  lemma ConfiguredSignature(p: Request, parent: Option<nat>, parse: string -> Option<real>)
    requires TextValued(p.options) && Configure(p, parent, parse).Success?
    requires p.widget == Signature
    ensures var d := Configure(p, parent, parse).value;
      ReadOnly !in d.flags && d.fontSize.None? && d.fontName.None? && d.value.None? && d.digitalSignature
  {
    ConfigureSteps(p, parent, parse);
  }

  /** A radio button's caption is its export value, whether it is created
      as a radio button or falls back to a check box, and a fallen-back one
      starts from that value when its state is chosen. */
  lemma RadioCaption(q: Request, parent: Option<nat>, parse: string -> Option<real>, backend: Backend)
    requires TextValued(q.options) && q.widget == RadioButton
    requires AddFormField(q, parent, parse, backend).Success?
    requires AddFormField(q, parent, parse, backend).value.Created?
    ensures var d := AddFormField(q, parent, parse, backend).value.widget;
      && d.caption == Some(RadioExport(q))
      && (d.widget == CheckBox <==> AddFormField(q, parent, parse, backend).value.fellBack)
      && (AddFormField(q, parent, parse, backend).value.fellBack ==>
            d.value == CheckBoxValue(backend.states, RadioExport(q), Some(RadioExport(q))))
      && (!AddFormField(q, parent, parse, backend).value.fellBack ==>
            d.value == RadioValue(backend.states, RadioExport(q), None))
  {
    var p := Prepared(q);
    ConfigureSteps(p, parent, parse);
    assert Provided(p.options) == RadioExport(q);
  }
}
