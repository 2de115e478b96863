/**
 * The document driver convert_docx_to_fillable_pdf (pdfconv.py:1125-1255):
 * per page, the placeholders are detected, each is matched to the table
 * cell it overlaps most, parsed, renamed to a name unique for its base,
 * given the cell's size when it names no size of its own, and handed to
 * add_form_field. The name counter and the radio group registry live in one
 * context object.
 */
module Conversion {
  import opened Wrappers
  import opened Text
  import opened Tokens
  import opened Geometry
  import opened PageIndex
  import opened Placement
  import opened Parser
  import opened Widgets

  // ---------------------------------------------------------------------
  // Table cell selection (pdfconv.py:1151-1171)

  /** The detection rectangle grown by 18 horizontally and 12 vertically. */
  function Expanded(r: Rect): (e: Rect)
    ensures WellFormed(r) ==> WellFormed(e) && Inside(r, e)
    ensures e == Grow(r, 18.0, 12.0)
  {
    Grow(r, 18.0, 12.0)
  }

  /** The area the loop compares: that of the intersection, or nothing when
      the intersection is false. */
  function CellArea(cell: Rect, e: Rect): (a: real)
    ensures a >= 0.0
  {
    if Truthy(Intersect(cell, e)) then Area(Intersect(cell, e)) else 0.0
  }

  /** Guarding the area by the truth of the intersection loses nothing: a
      positive overlap always has a true intersection. */
  lemma CellAreaIsOverlap(cell: Rect, e: Rect)
    ensures CellArea(cell, e) == Area(Intersect(cell, e))
    ensures CellArea(cell, e) > 0.0 ==> Inside(Intersect(cell, e), cell) && Inside(Intersect(cell, e), e)
  {
    OverlapArea(cell, e);
  }

  /** The cell the loop ends on after the first `n` cells: the first one
      whose area is strictly the greatest, provided it is positive. */
  function Best(cells: seq<Rect>, e: Rect, n: nat): (b: Option<nat>)
    requires n <= |cells|
    ensures b.None? <==> forall i :: 0 <= i < n ==> CellArea(cells[i], e) == 0.0
    ensures b.Some? ==>
      && b.value < n
      && CellArea(cells[b.value], e) > 0.0
      && (forall i :: 0 <= i < n ==> CellArea(cells[i], e) <= CellArea(cells[b.value], e))
      && (forall i :: 0 <= i < b.value ==> CellArea(cells[i], e) < CellArea(cells[b.value], e))
  {
    if n == 0 then None
    else
      var prev := Best(cells, e, n - 1);
      var m := if prev.Some? then CellArea(cells[prev.value], e) else 0.0;
      if CellArea(cells[n - 1], e) > m then Some(n - 1) else prev
  }

  /** One more cell: it becomes the best one exactly when its area beats
      that of the best so far, or zero when there is none. */
  lemma BestStep(cells: seq<Rect>, e: Rect, i: nat)
    requires i < |cells|
    ensures var prev := Best(cells, e, i);
      var m := if prev.Some? then CellArea(cells[prev.value], e) else 0.0;
      Best(cells, e, i + 1) == if CellArea(cells[i], e) > m then Some(i) else prev
  {
  }

  /** The cell rectangle the field is placed on: the best cell, or the
      detection rectangle itself when no cell overlaps. */
  function ChosenCell(detection: Rect, cells: seq<Rect>): Rect {
    var b := Best(cells, Expanded(detection), |cells|);
    if b.Some? then cells[b.value] else detection
  }

  /** The arg-max loop over the cells of all tables of the page, in order. */
  method SelectCell(detection: Rect, cells: seq<Rect>) returns (cell: Rect, found: bool)
    ensures found <==> Best(cells, Expanded(detection), |cells|).Some?
    ensures cell == ChosenCell(detection, cells)
  {
    var e := Expanded(detection);
    cell := detection;
    found := false;
    var maxArea := 0.0;
    ghost var best: Option<nat> := None;
    for i := 0 to |cells|
      invariant best == Best(cells, e, i)
      invariant found <==> best.Some?
      invariant found ==> best.value < i && cell == cells[best.value] && maxArea == CellArea(cells[best.value], e)
      invariant !found ==> cell == detection && maxArea == 0.0
      invariant maxArea >= 0.0
    {
      BestStep(cells, e, i);
      var better, area := CompareCell(cells[i], e, maxArea);
      if better {
        maxArea := area;
        cell := cells[i];
        found := true;
        best := Some(i);
      }
    }
  }

  /** One step of the arg-max loop: the intersection of the cell with the
      grown rectangle is taken, and its area beats the maximum so far. */
  method CompareCell(cell: Rect, e: Rect, maxArea: real) returns (better: bool, area: real)
    requires maxArea >= 0.0
    ensures better <==> CellArea(cell, e) > maxArea
    ensures better ==> area == CellArea(cell, e)
  {
    better, area := false, maxArea;
    var inter := Intersect(cell, e);
    if Truthy(inter) {
      area := Area(inter);
      better := area > maxArea;
    }
  }

  // ---------------------------------------------------------------------
  // Table-size injection (pdfconv.py:1188-1190)

  /** A field found in a table and naming no size of its own takes the
      cell's width and height. */
  function Injected(opts: Options, found: bool, cell: Rect): (o: Options)
    ensures found && !HasDimension(opts) ==>
      o == opts["cellwidth" := Number(Width(cell))]["rowheight" := Number(Height(cell))]
    ensures !(found && !HasDimension(opts)) ==> o == opts
    ensures TextValued(opts) ==> TextValued(o)
  {
    if found && !HasDimension(opts) then
      opts["cellwidth" := Number(Width(cell))]["rowheight" := Number(Height(cell))]
    else opts
  }

  /** With the injected sizes the widget is exactly the cell's size at the
      cell's (snapped) top-left corner. */
  lemma InjectedSizeWins(opts: Options, cell: Rect, d: Descriptor, parse: string -> Option<real>)
    requires !HasDimension(opts)
    ensures var o := Injected(opts, true, cell);
      var r := Resized(d, o, parse);
      && r.Success?
      && r.value.rect == Rect(d.rect.x0, d.rect.y0, d.rect.x0 + Width(cell), d.rect.y0 + Height(cell))
  {
    var o := Injected(opts, true, cell);
    assert "cellwidth" in o && o["cellwidth"] == Number(Width(cell));
    assert "rowheight" in o && o["rowheight"] == Number(Height(cell));
    assert HasDimension(o);
  }

  /** A parsed placeholder's options all hold text. */
  lemma ParsedTextValued(placeholder: string, closest: string -> Option<KeywordIndex>)
    requires ParseSpec(placeholder, closest).Success?
    ensures TextValued(ParseSpec(placeholder, closest).value.options)
  {
    var token := NormalizeToken(placeholder);
    var parts := Split(token, ':');
    var rest := Join(parts[1..], ':');
    var n := NameRun(rest);
    var subs := Subparts(rest[..n], rest[n..]);
    OptionsAreClean(subs[1..], closest);
  }

  // ---------------------------------------------------------------------
  // Renaming (pdfconv.py:1176-1183)

  /** The name of the n-th placeholder with a base name, on a page: the
      first keeps the base, the later ones get `_P{page}_N{n}`. */
  function RenamedName(base: string, page: nat, occurrence: nat): string {
    if occurrence > 1 then base + "_P" + Marker(page, occurrence) else base
  }

  /** The `{page}_N{occurrence}` that follows `_P` in a renamed name. */
  function Marker(page: nat, occurrence: nat): string {
    Decimal(page) + "_N" + Decimal(occurrence)
  }

  /** In `a_Nb` with no `_` in `a`, the first `_` ends `a`. */
  lemma FirstUnderscore(a: string, b: string)
    requires '_' !in a
    ensures IndexOf(a + "_N" + b, '_') == |a|
  {
    var s := a + "_N" + b;
    assert s[|a|] == '_';
    assert forall j :: 0 <= j < |a| ==> s[j] == a[j];
  }

  /** `a_Nb` can be taken apart again when `a` has no `_`. */
  lemma SplitAtMarker(a: string, b: string, c: string, d: string)
    requires '_' !in a && '_' !in c
    requires a + "_N" + b == c + "_N" + d
    ensures a == c && b == d
  {
    var s := a + "_N" + b;
    FirstUnderscore(a, b);
    FirstUnderscore(c, d);
    assert a == s[..|a|] == c;
    assert b == s[|a| + 2..] == d;
  }

  /** Different occurrences give different markers, whatever the pages. */
  lemma MarkerInjective(p: nat, q: nat, n: nat, m: nat)
    ensures Marker(p, n) == Marker(q, m) ==> n == m
  {
    if Marker(p, n) == Marker(q, m) {
      SplitAtMarker(Decimal(p), Decimal(n), Decimal(q), Decimal(m));
      DecimalInjective(n, m);
    }
  }

  /** A common prefix can be dropped from both sides of an equality. */
  lemma DropPrefix(x: string, a: string, b: string)
    ensures x + a == x + b ==> a == b
  {
    assert (x + a)[|x|..] == a;
    assert (x + b)[|x|..] == b;
  }

  /** Two occurrences of one base never share a name, wherever they are. */
  lemma RenamedDistinct(base: string, p: nat, q: nat, n: nat, m: nat)
    requires 1 <= n && 1 <= m && n != m
    ensures RenamedName(base, p, n) != RenamedName(base, q, m)
  {
    MarkerInjective(p, q, n, m);
    DropPrefix(base + "_P", Marker(p, n), Marker(q, m));
  }

  /** The second `a` of page 0 is named like a placeholder whose base is
      `a_P0_N2`: names are unique per base, not across bases. */
  lemma CrossBaseCollision()
    ensures RenamedName("a", 0, 2) == RenamedName("a_P0_N2", 0, 1)
  {
    assert Decimal(0) == "0" && Decimal(2) == "2";
  }

  // ---------------------------------------------------------------------
  // The radio registry (pdfconv.py:139-178, 1033-1050)

  /** A created radio widget as the backend lists it: an identity and its
      object number (0 when it has none, which is false in a truth test). */
  datatype LiveWidget = LiveWidget(id: nat, xref: nat)

  /** An entry of RADIO_GROUPS: the group's parent and its widgets. */
  datatype RadioGroup = RadioGroup(parent: Option<nat>, members: seq<LiveWidget>)

  /** Lines 1035-1038: the first live widget of a name gives RADIO_PARENTS
      its entry, whatever its object number. */
  function RegisterParent(parents: map<string, nat>, name: string, live: Option<LiveWidget>): (r: map<string, nat>)
    ensures name in parents ==> r == parents
    ensures name !in parents && live.Some? ==> r == parents[name := live.value.xref]
    ensures live.None? ==> r == parents
  {
    if name !in parents && live.Some? then parents[name := live.value.xref] else parents
  }

  /** `_apply_radio_parent`: the widget joins its group, and the group takes
      the widget's object number as parent when it has none yet. */
  function ApplyRadioParent(groups: map<string, RadioGroup>, name: string, live: Option<LiveWidget>): map<string, RadioGroup> {
    if live.None? then groups
    else
      var g := if name in groups then groups[name] else RadioGroup(None, []);
      var parent := if g.parent.None? && live.value.xref != 0 then Some(live.value.xref) else g.parent;
      groups[name := RadioGroup(parent, g.members + [live.value])]
  }

  /** Once a group has a parent, a later registration keeps it and only
      appends the widget; nothing else changes. */
  lemma LaterRegistrationAppends(groups: map<string, RadioGroup>, name: string, w: LiveWidget)
    requires name in groups && groups[name].parent.Some?
    ensures var r := ApplyRadioParent(groups, name, Some(w));
      && name in r
      && r[name].parent == groups[name].parent
      && r[name].members == groups[name].members + [w]
      && (forall other :: other != name ==> (other in r <==> other in groups))
      && (forall other :: other in groups && other != name ==> r[other] == groups[other])
  {
  }

  /** The groups after the given registrations of one name, from empty maps. */
  function Registered(name: string, lives: seq<Option<LiveWidget>>): map<string, RadioGroup> {
    if lives == [] then map[]
    else ApplyRadioParent(Registered(name, lives[..|lives| - 1]), name, lives[|lives| - 1])
  }

  /** The object number of the first registered widget that has one. */
  function FirstXref(lives: seq<Option<LiveWidget>>): Option<nat> {
    if lives == [] then None
    else
      var prev := FirstXref(lives[..|lives| - 1]);
      var last := lives[|lives| - 1];
      if prev.None? && last.Some? && last.value.xref != 0 then Some(last.value.xref) else prev
  }

  /** The widgets that were registered, in order. */
  function Present(lives: seq<Option<LiveWidget>>): seq<LiveWidget> {
    if lives == [] then []
    else
      var last := lives[|lives| - 1];
      Present(lives[..|lives| - 1]) + (if last.Some? then [last.value] else [])
  }

  /** After any sequence of registrations of a name, its group exists once
      some widget was registered, its parent is the object number of the
      first registered widget that has one, and its members are the
      registered widgets in order. */
  lemma {:induction false} RegistryGroup(name: string, lives: seq<Option<LiveWidget>>)
    ensures var g := Registered(name, lives);
      && (name in g <==> Present(lives) != [])
      && (name in g ==> g[name].parent == FirstXref(lives) && g[name].members == Present(lives))
      && (forall other :: other in g ==> other == name)
    ensures Present(lives) == [] ==> FirstXref(lives).None?
  {
    if lives != [] {
      var init := lives[..|lives| - 1];
      var last := lives[|lives| - 1];
      RegistryGroup(name, init);
      assert Registered(name, lives) == ApplyRadioParent(Registered(name, init), name, last);
      assert Present(lives) == Present(init) + (if last.Some? then [last.value] else []);
    }
  }

  /** The parent a registered live widget is pointed at: the group's, else
      the one RADIO_PARENTS holds. */
  function LinkedParent(parents: map<string, nat>, groups: map<string, RadioGroup>, name: string, live: Option<LiveWidget>): Option<nat> {
    if live.None? then None
    else if name in groups && groups[name].parent.Some? then groups[name].parent
    else if name in parents then Some(parents[name])
    else None
  }

  // ---------------------------------------------------------------------
  // The conversion context

  /** What the backend and the oracles answer for a document: the closest
      keyword, float(), the font at a rectangle, the backend's answers and
      the live widget for the k-th detection of a page, and the radio mode. */
  datatype Environment = Environment(
    closest: string -> Option<KeywordIndex>,
    parse: string -> Option<real>,
    font: (nat, Rect, string) -> (string, real),
    backend: (nat, nat) -> Backend,
    live: (nat, nat) -> Option<LiveWidget>,
    mode: RadioMode)

  /** A page as the backend gives it: its spans in reading order, the
      placeholder matches on its text, and the cells of its tables. */
  datatype Page = Page(spans: seq<RawSpan>, matches: seq<RawMatch>, cells: seq<Rect>)

  /** One placeholder handled: its base and final names, its page, what
      add_form_field did, the parent a radio widget was linked to and the
      rectangles redacted. */
  datatype FieldRecord = FieldRecord(
    base: string,
    name: string,
    page: nat,
    outcome: Outcome,
    linked: Option<nat>,
    redactions: seq<Rect>)

  /** The exceptions that end a conversion: parse_placeholder's ValueError
      (not caught by the driver) and add_form_field's. */
  datatype ConversionError = BadPlaceholder(parse: ParseError) | BadField(field: FieldError)

  /** The request add_form_field gets for a parsed placeholder. */
  function FieldRequest(ph: Placeholder, name: string, cell: Rect, found: bool, font: (string, real), mode: RadioMode): Request {
    Request(cell, FieldTypeOf(ph.typeName), name, ph.required, ph.readonly,
            Injected(ph.options, found, cell), ph.typeName, font.0, font.1, mode)
  }

  function Count(counts: map<string, nat>, base: string): nat {
    if base in counts then counts[base] else 0
  }

  function ParentOf(parents: map<string, nat>, name: string): Option<nat> {
    if name in parents then Some(parents[name]) else None
  }

  /** A placeholder named and handed to add_form_field. */
  datatype Field = Field(base: string, name: string, outcome: Outcome, radio: bool)

  /** The request for a parsed placeholder of a page, as a function of the
      name counts before it: named after its occurrence, and placed on its
      cell with the cell's size when it names none. */
  function RequestFor(ph: Placeholder, det: Detection, page: nat, cells: seq<Rect>, env: Environment,
                      counts: map<string, nat>): (q: Request)
    ensures q.name == RenamedName(ph.name, page, Count(counts, ph.name) + 1)
    ensures TextValued(ph.options) ==> TextValued(q.options)
  {
    var name := RenamedName(ph.name, page, Count(counts, ph.name) + 1);
    var cell := ChosenCell(det.detectionRect, cells);
    var found := Best(cells, Expanded(det.detectionRect), |cells|).Some?;
    FieldRequest(ph, name, cell, found, env.font(page, cell, det.placeholder), env.mode)
  }

  /** A parsed placeholder handed to add_form_field, with the parent
      registered for its name so far. */
  function FieldFor(ph: Placeholder, det: Detection, page: nat, index: nat, cells: seq<Rect>, env: Environment,
                    counts: map<string, nat>, parents: map<string, nat>): Result<Field, ConversionError>
    requires TextValued(ph.options)
  {
    var q := RequestFor(ph, det, page, cells, env, counts);
    match AddFormField(q, ParentOf(parents, q.name), env.parse, env.backend(page, index))
    case Failure(e) => Failure(BadField(e))
    case Success(out) => Success(Field(ph.name, q.name, out, q.widget == RadioButton))
  }

  /** One placeholder of a page: a parse failure is reported, a parsed one
      is handed to add_form_field. */
  function FieldOf(det: Detection, page: nat, index: nat, cells: seq<Rect>, env: Environment,
                   counts: map<string, nat>, parents: map<string, nat>): Result<Field, ConversionError>
  {
    match ParseSpec(det.placeholder, env.closest)
    case Failure(e) => Failure(BadPlaceholder(e))
    case Success(ph) =>
      ParsedTextValued(det.placeholder, env.closest);
      FieldFor(ph, det, page, index, cells, env, counts, parents)
  }

  /** How many of the first `n` records have a base name: the size of the
      set of their positions. */
  function CountBase(records: seq<FieldRecord>, base: string, n: nat): (c: nat)
    requires n <= |records|
    ensures c == |set i | 0 <= i < n && records[i].base == base|
  {
    if n == 0 then 0
    else
      assert (set i | 0 <= i < n && records[i].base == base) ==
        (set i | 0 <= i < n - 1 && records[i].base == base) + (if records[n - 1].base == base then {n - 1} else {});
      CountBase(records, base, n - 1) + (if records[n - 1].base == base then 1 else 0)
  }

  /** Record `i` is named after its occurrence among the records of its
      base up to and including it. */
  predicate NamedAt(records: seq<FieldRecord>, i: nat)
    requires i < |records|
  {
    records[i].name == RenamedName(records[i].base, records[i].page, CountBase(records, records[i].base, i + 1))
  }

  /** The first `n` records are each named after their occurrence. */
  predicate NamedUpTo(records: seq<FieldRecord>, n: nat)
    requires n <= |records|
  {
    n == 0 || (NamedUpTo(records, n - 1) && NamedAt(records, n - 1))
  }

  predicate NamedByOccurrence(records: seq<FieldRecord>) {
    NamedUpTo(records, |records|)
  }

  lemma {:induction false} NamedUpToAt(records: seq<FieldRecord>, n: nat, i: nat)
    requires i < n <= |records| && NamedUpTo(records, n)
    ensures NamedAt(records, i)
  {
    if i < n - 1 {
      NamedUpToAt(records, n - 1, i);
    }
  }

  lemma {:induction false} CountBaseMono(records: seq<FieldRecord>, b: string, i: nat, j: nat)
    requires i <= j <= |records|
    ensures CountBase(records, b, i) <= CountBase(records, b, j)
    decreases j - i
  {
    if i < j {
      CountBaseMono(records, b, i, j - 1);
    }
  }

  /** Records named by occurrence never give two placeholders of one base
      the same name. */
  lemma UniquePerBase(records: seq<FieldRecord>, i: nat, j: nat)
    requires NamedByOccurrence(records)
    requires i < j < |records| && records[i].base == records[j].base
    ensures records[i].name != records[j].name
  {
    var b := records[i].base;
    NamedUpToAt(records, |records|, i);
    NamedUpToAt(records, |records|, j);
    CountBaseMono(records, b, i + 1, j);
    RenamedDistinct(b, records[i].page, records[j].page, CountBase(records, b, i + 1), CountBase(records, b, j + 1));
  }

  /** Counting over a longer list agrees on the common prefix. */
  lemma {:induction false} CountBasePrefix(records: seq<FieldRecord>, rec: FieldRecord, b: string, n: nat)
    requires n <= |records|
    ensures CountBase(records + [rec], b, n) == CountBase(records, b, n)
  {
    if n > 0 {
      CountBasePrefix(records, rec, b, n - 1);
      assert (records + [rec])[n - 1] == records[n - 1];
    }
  }

  /** Appending a record leaves the naming of the earlier records as it
      was. */
  lemma {:induction false} AppendKeepsEarlier(records: seq<FieldRecord>, rec: FieldRecord, n: nat)
    requires n <= |records|
    ensures NamedUpTo(records + [rec], n) == NamedUpTo(records, n)
  {
    if n > 0 {
      AppendKeepsEarlier(records, rec, n - 1);
      var r := records[n - 1];
      CountBasePrefix(records, rec, r.base, n);
      assert (records + [rec])[n - 1] == r;
    }
  }

  /** The appended record is the next occurrence of its base. */
  lemma AppendCountsLast(records: seq<FieldRecord>, rec: FieldRecord, b: string)
    ensures CountBase(records + [rec], b, |records| + 1) ==
      CountBase(records, b, |records|) + (if rec.base == b then 1 else 0)
  {
    CountBasePrefix(records, rec, b, |records|);
    assert (records + [rec])[|records|] == rec;
  }

  /** Appending a record named after the next occurrence of its base keeps
      the records named by occurrence. */
  lemma AppendNamed(records: seq<FieldRecord>, rec: FieldRecord, seen: nat)
    requires NamedByOccurrence(records)
    requires seen == CountBase(records, rec.base, |records|)
    requires rec.name == RenamedName(rec.base, rec.page, seen + 1)
    ensures NamedByOccurrence(records + [rec])
  {
    var s := records + [rec];
    AppendKeepsEarlier(records, rec, |records|);
    AppendCountsLast(records, rec, rec.base);
    assert s[|records|] == rec;
    assert NamedAt(s, |records|);
  }

  /** The counter holds, per base, how many records have that base. */
  ghost predicate Counted(counts: map<string, nat>, records: seq<FieldRecord>) {
    forall b :: Count(counts, b) == CountBase(records, b, |records|)
  }

  /** Counting one more occurrence of the appended record's base keeps the
      counter equal to the per-base counts of the records. */
  lemma CountsStep(before: map<string, nat>, after: map<string, nat>, records: seq<FieldRecord>, rec: FieldRecord)
    requires Counted(before, records)
    requires after == before[rec.base := Count(before, rec.base) + 1]
    ensures Counted(after, records + [rec])
  {
    forall b ensures Count(after, b) == CountBase(records + [rec], b, |records| + 1) {
      AppendCountsLast(records, rec, b);
    }
  }

  class ConversionContext {
    /** field_name_counts: how often each base name was seen. */
    var nameCounts: map<string, nat>
    /** RADIO_PARENTS */
    var radioParents: map<string, nat>
    /** RADIO_GROUPS */
    var radioGroups: map<string, RadioGroup>

    constructor()
      ensures nameCounts == map[] && radioParents == map[] && radioGroups == map[]
    {
      nameCounts := map[];
      radioParents := map[];
      radioGroups := map[];
    }

    /** Lines 1137-1140: a run starts with an empty registry and no names. */
    method Reset()
      modifies this
      ensures nameCounts == map[] && radioParents == map[] && radioGroups == map[]
    {
      nameCounts := map[];
      radioParents := map[];
      radioGroups := map[];
    }

    /** Lines 1176-1183: count one more occurrence of the base and name it. */
    method NextName(base: string, page: nat) returns (name: string)
      modifies this
      ensures nameCounts == old(nameCounts)[base := Count(old(nameCounts), base) + 1]
      ensures name == RenamedName(base, page, Count(old(nameCounts), base) + 1)
      ensures radioParents == old(radioParents) && radioGroups == old(radioGroups)
    {
      if base !in nameCounts {
        nameCounts := nameCounts[base := 0];
      }
      nameCounts := nameCounts[base := nameCounts[base] + 1];
      var occurrence := nameCounts[base];
      name := base;
      if occurrence > 1 {
        name := base + "_P" + Marker(page, occurrence);
      }
    }

    /** Lines 1033-1050: record the parent of a created radio widget and
        add it to its group; the result is the parent it is linked to. */
    method RegisterRadio(name: string, live: Option<LiveWidget>) returns (linked: Option<nat>)
      modifies this
      ensures radioParents == RegisterParent(old(radioParents), name, live)
      ensures radioGroups == ApplyRadioParent(old(radioGroups), name, live)
      ensures linked == LinkedParent(radioParents, radioGroups, name, live)
      ensures nameCounts == old(nameCounts)
    {
      linked := None;
      if name !in radioParents && live.Some? {
        radioParents := radioParents[name := live.value.xref];
      }
      if name in radioParents && live.Some? {
        linked := Some(radioParents[name]);
      }
      if live.Some? {
        var w := live.value;
        if name !in radioGroups {
          radioGroups := radioGroups[name := RadioGroup(None, [])];
        }
        var g := radioGroups[name];
        g := g.(members := g.members + [w]);
        if g.parent.None? && w.xref != 0 {
          g := g.(parent := Some(w.xref));
        }
        radioGroups := radioGroups[name := g];
        if g.parent.Some? {
          linked := g.parent;
        }
      }
    }

    /** Lines 1151-1190 after the parse: the cell, the name and the size. */
    method RequestParsed(ph: Placeholder, det: Detection, page: nat, cells: seq<Rect>, env: Environment)
        returns (q: Request)
      modifies this
      ensures q == RequestFor(ph, det, page, cells, env, old(nameCounts))
      ensures nameCounts == old(nameCounts)[ph.name := Count(old(nameCounts), ph.name) + 1]
      ensures radioParents == old(radioParents) && radioGroups == old(radioGroups)
    {
      var cell, found := SelectCell(det.detectionRect, cells);
      var name := NextName(ph.name, page);
      q := FieldRequest(ph, name, cell, found, env.font(page, cell, det.placeholder), env.mode);
    }

    /** Lines 1151-1214 after the parse: the cell, the name, the size and
        the widget of a parsed placeholder, then the radio registration of a
        radio button created as one; its redactions are kept whatever
        add_form_field did. */
    method PlaceParsed(ph: Placeholder, det: Detection, page: nat, index: nat, cells: seq<Rect>, env: Environment)
        returns (r: Result<FieldRecord, ConversionError>)
      requires TextValued(ph.options)
      modifies this
      ensures var f := FieldFor(ph, det, page, index, cells, env, old(nameCounts), old(radioParents));
        && (r.Failure? <==> f.Failure?)
        && (r.Failure? ==> r.error == f.error)
        && (r.Success? ==>
              && r.value.base == f.value.base && r.value.name == f.value.name
              && r.value.outcome == f.value.outcome && r.value.redactions == det.redactRects)
      ensures nameCounts == old(nameCounts)[ph.name := Count(old(nameCounts), ph.name) + 1]
      ensures r.Success? ==>
        && r.value.base == ph.name && r.value.page == page
        && r.value.name == RenamedName(ph.name, page, Count(old(nameCounts), ph.name) + 1)
      ensures var f := FieldFor(ph, det, page, index, cells, env, old(nameCounts), old(radioParents));
        if f.Success? && f.value.radio && f.value.outcome.Created? && !f.value.outcome.fellBack then
          && radioParents == RegisterParent(old(radioParents), f.value.name, env.live(page, index))
          && radioGroups == ApplyRadioParent(old(radioGroups), f.value.name, env.live(page, index))
          && r.value.linked == LinkedParent(radioParents, radioGroups, f.value.name, env.live(page, index))
        else
          && radioParents == old(radioParents) && radioGroups == old(radioGroups)
          && (r.Success? ==> r.value.linked.None?)
    {
      var q := RequestParsed(ph, det, page, cells, env);
      var name := q.name;
      var parent := if name in radioParents then Some(radioParents[name]) else None;
      var out := AddFormField(q, parent, env.parse, env.backend(page, index));
      if out.Failure? {
        return Failure(BadField(out.error));
      }
      var linked := None;
      if out.value.Created? && !out.value.fellBack && q.widget == RadioButton {
        linked := RegisterRadio(name, env.live(page, index));
      }
      r := Success(FieldRecord(ph.name, name, page, out.value, linked, det.redactRects));
    }

    /** One placeholder of a page (lines 1149-1214): an unparsable one ends
        the run, a parsed one is placed. */
    method PlaceDetection(det: Detection, page: nat, index: nat, cells: seq<Rect>, env: Environment)
        returns (r: Result<FieldRecord, ConversionError>)
      modifies this
      ensures var f := FieldOf(det, page, index, cells, env, old(nameCounts), old(radioParents));
        && (r.Failure? <==> f.Failure?)
        && (r.Failure? ==> r.error == f.error)
        && (r.Success? ==>
              && r.value.base == f.value.base && r.value.name == f.value.name
              && r.value.outcome == f.value.outcome && r.value.redactions == det.redactRects)
      ensures r.Success? ==>
        && r.value.page == page
        && r.value.name == RenamedName(r.value.base, r.value.page, Count(old(nameCounts), r.value.base) + 1)
        && nameCounts == old(nameCounts)[r.value.base := Count(old(nameCounts), r.value.base) + 1]
    {
      var parsed := ParsePlaceholder(det.placeholder, env.closest);
      if parsed.Failure? {
        return Failure(BadPlaceholder(parsed.error));
      }
      ParsedTextValued(det.placeholder, env.closest);
      r := PlaceParsed(parsed.value, det, page, index, cells, env);
    }

    /** The pages of a document in order (lines 1137-1214): the context is
        reset, and the first exception ends the run. Every placeholder of a
        successful run is named after its occurrence among those of its
        base, and the counter holds, per base, how many there were. */
    method Convert(pages: seq<Page>, env: Environment) returns (r: Result<seq<FieldRecord>, ConversionError>)
      modifies this
      ensures r.Success? ==> NamedByOccurrence(r.value)
      ensures r.Success? ==> Counted(nameCounts, r.value)
    {
      Reset();
      var records: seq<FieldRecord> := [];
      for p := 0 to |pages|
        invariant NamedByOccurrence(records)
        invariant Counted(nameCounts, records)
      {
        var detections := IterPlaceholders(pages[p].spans, pages[p].matches);
        for k := 0 to |detections|
          invariant NamedByOccurrence(records)
          invariant Counted(nameCounts, records)
        {
          ghost var before := nameCounts;
          var one := PlaceDetection(detections[k], p, k, pages[p].cells, env);
          if one.Failure? {
            return Failure(one.error);
          }
          assert Counted(before, records);
          AppendNamed(records, one.value, Count(before, one.value.base));
          CountsStep(before, nameCounts, records, one.value);
          records := records + [one.value];
        }
      }
      r := Success(records);
    }

  }
}
