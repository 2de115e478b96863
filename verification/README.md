# pdfconv in Dafny

This project models the text side of `pdfconv.py`, a converter that turns a
PDF rendered from a Word document into a fillable PDF form. Placeholders such
as `{{textbox:firstname|required}}` are found in the text of each page. Each
one becomes a form field placed on the table cell it sits in, and its text is
redacted. The model covers:

- **Sanitising and repair of the extracted text** (`Text`, `Tokens`):
  - `strip_invisible`;
  - the placeholder-token repair, `normalize_placeholder_token`, with its
    keyword passes in the program's own keyword order;
  - the option-key repair, `normalize_option_key`, with its fuzzy match as an
    oracle;
  - the unused `clean_placeholder_text`.
- **Parsing** (`Parser`): `parse_placeholder`, with the cleanup of each class
  of option value, and the kind table of `get_field_type`.
- **Geometry** (`Geometry`): rectangles over `real`, the two unions, the
  centred square, the partial span rectangle and the length estimate.
- **The page text index and placeholder detection** (`PageIndex`,
  `Placement`): `build_page_text_index` and `iter_placeholders` as methods
  with loops, each proved equal to a specification function. Properties of
  those functions are then proved as lemmas.
- **The widget decisions of `add_form_field`** (`Widgets`). They are written
  as a pure builder from the request to a descriptor of the attributes the
  program sets: all of them but the text colour, including the zero text
  margin of text fields and the solid border style. After it come the radio policy (skip, strict, fallback) and
  the choice of a check box's on-state.
- **The document driver** (`Conversion`):
  - the table-cell arg-max;
  - the per-base occurrence counter and the renaming;
  - the injection of the table cell's size;
  - the radio group registry.

  These live in one class, `ConversionContext`. Its fields are the name
  counter (`field_name_counts`), `RADIO_PARENTS` and `RADIO_GROUPS`. Its
  methods are proved against the specification functions.

The PDF backend only supplies inputs and receives outputs. The model turns
each of its roles into a parameter:

- the span list of a page;
- the placeholder pattern's matches on the page text;
- the cells of the page's tables;
- whether the backend accepts a widget, and the appearance states it reports;
- the live widget found after the add;
- the font at a rectangle.

The same goes for the fuzzy keyword match (`closest`) and for Python's
`float()` (`parse`), which are oracles.

Where the code and the program's written specification disagree, the model
follows the code:

- **A parse error ends the run.** The `ValueError` raised by
  `parse_placeholder` is not caught by `convert_docx_to_fillable_pdf`. So an
  unparsable placeholder ends the whole conversion (`BadPlaceholder`) instead
  of being skipped.
- **Names are unique only within one base.** The renaming makes names unique
  per base name (`Conversion.UniquePerBase`), not across the document.
  `a`, `a` and `a_P0_N2` give two fields named `a_P0_N2`
  (`Conversion.CrossBaseCollision`).
- **A compound size key written directly before its `:` never survives
  the repair.** The `width` and `height` passes of pdfconv.py:266-268 run
  before the `cellwidth`, `columnwidth` and `rowheight` passes. So they
  split such a key: `cellwidth:1` becomes `cell|width:1`
  (Tokens.CellwidthIsSplit), and the key is read as a `width` or `height`
  option. A `cellwidth` key reached through stray punctuation or the fuzzy
  match does survive. `cellwidth-:1` passes the `width` pass unchanged
  (Tokens.StrayPunctuationNotSplit), and the key repair trims `cellwidth-`
  to `cellwidth` (Tokens.TrailingPunctuationTrimmed). A typo such as
  `cellwidht` can also reach `cellwidth` through the fuzzy step of
  pdfconv.py:293-295.
- **Text and script values lose their spaces.** pdfconv.py:254 removes all
  whitespace from the whole token before parsing. The later collapse of
  text values and the strip of script values therefore only ever see
  whitespace-free values, instead of preserving the content as written.
- **Radio buttons are grouped by their renamed name.** So two
  `radiobutton:gender` placeholders get distinct names and are registered as
  two groups.

The functions that model the program's functions one to one compute their
result and carry no contract of their own; the members in the table state
what they compute:

- `Tokens.NormalizeToken` (pdfconv.py:245-274): Tokens.NormalizePlaceholderToken,
  Tokens.NormalizedIsClean, Tokens.NormalizeCleanToken.
- `Tokens.CleanPlaceholderText` (pdfconv.py:220-242):
  Tokens.CleanPlaceholderTextIsVisible, Tokens.CleanPlaceholderTextCleans,
  Tokens.CleanPlaceholderTextIdentity.
- `Parser.ParseToken` and `Parser.ParseSpec` (pdfconv.py:298-354):
  Parser.ParseTokenOutcome, Parser.ParseOutcome, Parser.ParseRepaired,
  Parser.ParsePlaceholder.
- `Parser.OptionsOf` (pdfconv.py:333-352): Parser.OptionsLoop,
  Parser.OptionsLastWins, Parser.OptionsAreClean, Parser.AddOptionKeepsClean.
- `PageIndex.PageTextIndex` (pdfconv.py:518-550):
  PageIndex.PageTextIndexWellFormed, PageIndex.PageCleanOfRaw,
  PageIndex.BuildPageTextIndex.
- `Placement.DetectionOf` and `Placement.Detections` (pdfconv.py:606-651):
  Placement.DetectionOfFacts, Placement.DetectionsFacts,
  Placement.CoveringMatchDetected, Placement.DetectionsSnoc,
  Placement.DetectedInOrder, Placement.CoveringMatchesDetected,
  Placement.DetectMatch,
  Placement.IterPlaceholders.
- `Widgets.Configure` and `Widgets.TextSetup` (pdfconv.py:691-953):
  Widgets.ConfigureSteps, the Widgets.Configured* lemmas and
  Widgets.TextSetupLength.
- `Widgets.CheckBoxValue` (pdfconv.py:1080-1101): Widgets.ProvidedStateWins,
  Widgets.OnStateChosen.
- `Widgets.AddFormField` (pdfconv.py:653-1120): Widgets.RadioPolicy,
  Widgets.RadioCaption.
- `Conversion.RenamedName` (pdfconv.py:1176-1183): Conversion.MarkerInjective,
  Conversion.RenamedDistinct, Conversion.UniquePerBase,
  Conversion.ConversionContext.NextName.
- `Conversion.FirstXref` (pdfconv.py:157-178, 1033-1038):
  Conversion.RegistryGroup.

## Model

| member | source | states |
|---|---|---|
| Text.StripInvisible | pdfconv.py:69-90 | the result has none of the eight invisible code points, and every other character keeps its multiplicity |
| Text.StripInvisibleIdentity | pdfconv.py:82-90 | a text without invisible characters is returned unchanged, the empty text included |
| Text.StripInvisibleIdempotent | pdfconv.py:82-90 | stripping twice is stripping once |
| Text.StripInvisibleConcat | pdfconv.py:82-90 | the translation works character by character: it distributes over concatenation |
| Text.KeepCounts | pdfconv.py:254 | removing a class of characters, as `re.sub(r'\s+', '', s)` does, keeps every other character with its multiplicity and drops the class entirely |
| Text.RemoveWhitespace | pdfconv.py:534 | the result contains no whitespace character |
| Text.Strip | pdfconv.py:253 | `strip`: the result is no longer than the input, and it is empty or starts and ends with a character that is not stripped |
| Text.StripSlice | pdfconv.py:253 | the stripped text is one contiguous slice of the input, and what is cut off at either end is all in the stripped class |
| Text.StripBetween | pdfconv.py:253 | some slice `s[a..b]` is the stripped text, with only stripped characters before `a` and after `b` |
| Text.StripThenRemove | pdfconv.py:253-254 | removing the whitespace after `.strip()` gives what removing it from the raw token gives, and a non-empty stripped token keeps its first and last characters there |
| Text.Lower | pdfconv.py:308 | lower-casing keeps the length and leaves no upper-case letter |
| Text.Split | pdfconv.py:304 | `split` gives at least one part, and no part contains the separator |
| Text.JoinSplit | pdfconv.py:304-309 | joining the parts of a split on the same separator gives back the input |
| Text.SplitAtFirst | pdfconv.py:304-309 | there are at least two parts iff the separator occurs; the first part is the text before its first occurrence; joining the other parts gives the text after it |
| Text.ReplaceChar | pdfconv.py:344 | each `a` becomes `b` and every other character stays where it is; for `a != b` no `a` is left (the parser replaces `,` by `.`) |
| Text.Words | pdfconv.py:347 | the words of `value.split()` are non-empty and free of whitespace (Text.WordsAreRuns says which words) |
| Text.WordsAreRuns | pdfconv.py:347 | the input is its words interleaved with whitespace-only gaps, every inner gap non-empty: the words are the maximal non-whitespace runs, in order |
| Text.KeepInterleave | pdfconv.py:347 | removing the whitespace of words interleaved with whitespace gaps leaves the words run together |
| Text.KeepJoin | pdfconv.py:347 | removing the whitespace of `' '.join(words)` leaves the words run together |
| Text.JoinSingleSpaced | pdfconv.py:347 | joining non-empty whitespace-free words on one space gives single-spaced text: no whitespace at either end and every whitespace character a lone space |
| Text.CollapseSpacesFacts | pdfconv.py:347 | `' '.join(value.split())` keeps every non-whitespace character, in order, keeps the words apart (its words are the value's words) and is single-spaced |
| Text.WordsOfJoin | pdfconv.py:347 | splitting `' '.join(words)` gives back the words, when they are non-empty and free of whitespace |
| Text.KeepReplace | pdfconv.py:344 | replacing one non-whitespace character by another commutes with removing the whitespace |
| Text.CollapseSpacesIdentity | pdfconv.py:347 | a value without whitespace is unchanged by `' '.join(value.split())` |
| Tokens.KeywordsAreLowerLetters | pdfconv.py:34-54 | there are 19 option keywords, each made of lower-case letters only |
| Tokens.PassCopies | pdfconv.py:266-268 | a keyword pass copies every stretch of text that has no character matching the keyword's first letter up to case |
| Tokens.PassIdentity | pdfconv.py:256-268 | on settled text (every case-insensitive `kw:` already lower case and at the start or after `|` or `:`) a keyword pass changes nothing |
| Tokens.PassSettlesFrom | pdfconv.py:256-268 | the pass over a suffix leaves every `kw:` of its output lower case and after `|`, `:` or the start of the text |
| Tokens.PassSettles | pdfconv.py:256-268 | after a keyword pass, the text is settled for that keyword |
| Tokens.ApplyKeywordsIdentity | pdfconv.py:266-268 | text settled for the first n keywords passes those n passes unchanged |
| Tokens.PassKeeps | pdfconv.py:256-268 | a keyword pass adds only `|`, `:` and the keyword's letters, so any character class that holds for the input and those characters holds for the output |
| Tokens.ApplyKeywordsKeeps | pdfconv.py:266-268 | after any number of the keyword passes, a text free of whitespace and invisible characters stays free of them |
| Tokens.CellwidthIsSplit | pdfconv.py:34-54 | because `width` is rewritten before `cellwidth`, the pass of `width` turns `cellwidth:1` into `cell|width:1` |
| Tokens.StrayPunctuationNotSplit | pdfconv.py:256-268 | with a stray `-` between `cellwidth` and `:`, the pass of `width` leaves `cellwidth-:1` unchanged |
| Tokens.TrailingPunctuationTrimmed | pdfconv.py:283-288 | a keyword followed by one visible, non-space, non-upper-case character outside `[a-z0-9]` repairs to the keyword, whatever the fuzzy matcher would say |
| Tokens.KeywordIsLowered | pdfconv.py:256-264 | a matched `VALUE:` after a `|` becomes `value:` with no further `|` |
| Tokens.CollapsePipes | pdfconv.py:271 | after the collapse there is no `||`; the first character is kept; the characters other than `|` are exactly those of the input, in order |
| Tokens.CollapseIdentity | pdfconv.py:271 | a text with no `||` passes the collapse unchanged |
| Tokens.CollapseLeadingRun | pdfconv.py:271 | a run of one or more `|` at the start becomes a single `|` |
| Tokens.CollapseRun | pdfconv.py:271 | any maximal run of one or more `|` becomes exactly one `|`, and the text on either side is collapsed on its own |
| Tokens.CollapseKeeps | pdfconv.py:271 | collapsing pipes only removes characters, so every character class of the input holds for the output |
| Tokens.PrepareIsClean | pdfconv.py:252-254 | after the invisible-character strip, the bracket strip and the whitespace removal, the token has no whitespace and no invisible character |
| Tokens.NormalizePlaceholderToken | pdfconv.py:245-274 | the method, with its loop over the keywords, computes the repair function `NormalizeToken` of the raw token |
| Tokens.NormalizedIsClean | pdfconv.py:250-274 | for `NormalizeToken`: an empty token is returned unchanged; any other gives a result with no whitespace, no invisible character and no `||`, and with no `|` at either end |
| Tokens.NormalizeCleanToken | pdfconv.py:245-274 | a visible token whose whitespace-free form is non-empty, unbracketed, without `|` at either end or `||`, and settled for all 19 keywords, is repaired to exactly its whitespace-free form |
| Tokens.NormalizeOptionKey | pdfconv.py:277-296 | None exactly for an empty key; the lower-cased, stripped key when it is a keyword; otherwise the key trimmed of non-alphanumerics when that is a keyword; then the remainder after one stray `i`/`l`/`1`/`j` when that is a keyword; any other answer is a keyword or the trimmed key |
| Tokens.KeywordIsOwnBase | pdfconv.py:283-285 | a keyword is its own lower-cased, stripped form |
| Tokens.AlnumKeyIsOwnTrim | pdfconv.py:283-288 | a lower-case alphanumeric key is its own stripped and trimmed form |
| Tokens.StrayPrefixDropped | pdfconv.py:290-292 | a keyword behind one stray `i`/`l`/`1`/`j` repairs to the keyword (`ivalue` gives `value`), whatever the fuzzy matcher would say |
| Tokens.UnknownKeyKept | pdfconv.py:293-296 | an alphanumeric non-keyword that has no stray-prefix keyword and no fuzzy match is returned as it is |
| Tokens.NormalizeOptionKeyIdempotent | pdfconv.py:277-296 | a non-empty repaired key repairs to itself |
| Tokens.FirstClose | pdfconv.py:240 | the lazy `(.*?)\}\}` ends at the first `}}` |
| Tokens.CloseUpKeeps | pdfconv.py:226-227 | closing up spaced braces adds no character other than the brace |
| Tokens.CloseUpRemovesOnlySpace | pdfconv.py:226-227 | closing up keeps every non-whitespace character, in order |
| Tokens.CloseUpThreeBraces | pdfconv.py:226-227 | `{ { {` becomes `{{ {`: one pass of the substitution can leave a spaced pair, because matches do not overlap |
| Tokens.CloseUpIdentity | pdfconv.py:226-227 | text with no brace, whitespace run, brace pair is left unchanged |
| Tokens.SplitMergedKeeps | pdfconv.py:239 | splitting `}}{{` adds only a space and braces |
| Tokens.SplitMergedSeparates | pdfconv.py:239 | no `}}{{` is left after the split |
| Tokens.SplitMergedIdentity | pdfconv.py:239 | text with no `}}{{` is left unchanged |
| Tokens.CleanInsideKeeps | pdfconv.py:230-240 | the inside clean-up adds only braces |
| Tokens.CleanInsideCleans | pdfconv.py:230-240 | after the clean-up, the inside of every `{{` up to its first `}}` on the same line has no whitespace |
| Tokens.CleanInsideIdentity | pdfconv.py:230-240 | text whose every such inside is whitespace-free is left unchanged |
| Tokens.CleanInsideIdempotent | pdfconv.py:230-240 | cleaning twice is cleaning once |
| Tokens.CleanPlaceholderTextIsVisible | pdfconv.py:220-242 | the result of `CleanPlaceholderText` contains no invisible character |
| Tokens.CleanPlaceholderTextCleans | pdfconv.py:220-242 | in the cleaned text the inside of every `{{ ... }}` is whitespace-free |
| Tokens.CleanPlaceholderTextIdentity | pdfconv.py:220-242 | visible text with no spaced brace pair, no `}}{{` and whitespace-free insides is returned unchanged |
| Parser.NameRun | pdfconv.py:310 | the field name is the longest leading run of `[A-Za-z0-9_-]`, and the character after it, if any, is outside that class |
| Parser.NameIsClean | pdfconv.py:320-324 | the field name survives the subpart clean-up unchanged, so it is never dropped |
| Parser.NameHasNoSpace | pdfconv.py:327 | the whitespace removal of line 327 leaves a matched name unchanged |
| Parser.Subparts | pdfconv.py:318-328 | there is at least one subpart, and the first is the field name without whitespace |
| Parser.CleanSubpartsLoop | pdfconv.py:319-324 | the clean-up loop keeps the non-empty cleaned subparts, in order |
| Parser.BuildSubparts | pdfconv.py:314-328 | the method builds exactly the cleaned subparts, the field name first |
| Parser.CleanValue | pdfconv.py:341-351 | an `options` or unclassified value is the value without whitespace; a numeric one is that with each `,` replaced by `.`; a text value keeps its non-whitespace characters in order, has the same words as the value and is single-spaced; a script value is a slice of the value with only whitespace cut off at either end |
| Parser.OptionsLoop | pdfconv.py:333-352 | the options loop computes the options map of the later subparts (Parser.OptionsLastWins says which entries it holds) |
| Parser.OptionsLastWins | pdfconv.py:333-352 | a key is in the options exactly when some subpart has a `:` and a key that repairs to it; its value is the cleaned value of the last such subpart |
| Parser.AddOptionKeepsClean | pdfconv.py:334-352 | one more subpart keeps every stored key non-empty and every stored value cleaned for its key: no whitespace for `options`, numeric and unclassified keys, no `,` for numeric ones, single-spaced text values and stripped script values |
| Parser.OptionsAreClean | pdfconv.py:333-352 | for `OptionsOf`: every key is non-empty and its value is cleaned for that key (no whitespace, no `,` for numbers, single-spaced text, stripped script) |
| Parser.FlagListed | pdfconv.py:329-330 | `flag in [s.lower() for s in subparts]` holds iff some subpart lower-cases to the flag |
| Parser.ParseRepaired | pdfconv.py:304-354 | the method computes the parse of a repaired token |
| Parser.ParsePlaceholder | pdfconv.py:298-354 | the method computes the parse of the raw placeholder |
| Parser.ParseTokenOutcome | pdfconv.py:304-313 | the parse fails iff the token has no `:` or the text after the first `:` does not start with a name character; otherwise the name is that run, non-empty, and the kind is the lower-cased text before the first `:` |
| Parser.ParseOutcome | pdfconv.py:303-330 | the same condition on the repaired token decides failure; a parsed name is a non-empty name-character run, and the kind has no upper-case letter |
| Parser.NameCountsAsFlag | pdfconv.py:328-329 | a field whose name lower-cases to `required` is required, because the name is subpart 0 |
| Parser.FieldTypeOf | pdfconv.py:356-438 | each non-text widget has exactly its listed names; every other name, listed or not, maps to text |
| Geometry.Width | pdfconv.py:462-469 | a width is never negative, and it is `x1 - x0` for an ordered rectangle |
| Geometry.Height | pdfconv.py:462-469 | a height is never negative, and it is `y1 - y0` for an ordered rectangle |
| Geometry.Grow | pdfconv.py:1151-1156 | growing by non-negative margins contains the rectangle and keeps it well formed |
| Geometry.Bounds | pdfconv.py:599-602 | the bounding box contains every rectangle, and each of its coordinates is that of some rectangle |
| Geometry.UnionRects | pdfconv.py:471-481 | None exactly for an empty list; otherwise each coordinate is some rectangle's, moved out by the padding |
| Geometry.UnionRectsNoPadding | pdfconv.py:593-603 | None exactly for an empty list; otherwise it contains every rectangle |
| Geometry.UnionContainsAll | pdfconv.py:471-481 | with a non-negative padding, the padded union is the unpadded one grown by the padding, and it contains every rectangle |
| Geometry.BoundsWellFormed | pdfconv.py:476-479 | the bounding box of well-formed rectangles is well formed |
| Geometry.CenterSquare | pdfconv.py:483-491 | a square whose side is the smaller of width and height, with the same centre, inside a well-formed rectangle |
| Geometry.TimesIsProduct | pdfconv.py:569-576 | the repeated addition the model uses for `k * char_width` is the product |
| Geometry.PartialSpanRect | pdfconv.py:552-590 | the whole span rectangle for an empty span or a full cover; otherwise the span's vertical extent with `x0 <= x1` (the edges are Geometry.PartialSpanRectEdges) |
| Geometry.PartialSpanRectEdges | pdfconv.py:567-590 | with character width `cw`, the left edge is `x0 + start*cw`, plus `cw/2` when `start > 0`; the right edge is `x0 + end*cw`, less `cw/2` when `end < total`; an empty result is widened to one character |
| Geometry.PartialSpanRectInside | pdfconv.py:552-590 | for `start < end <= total` on a well-formed span, the partial rectangle is well formed and lies inside the span's rectangle |
| Geometry.EstimateMaxLength | pdfconv.py:505-516 | no limit exactly when the font size or the width is not positive; otherwise at least 1, and the characters per line times the number of lines (one line for a single-line field) |
| Geometry.CharsPerLine | pdfconv.py:510-511 | the floor of the usable width over `0.55 * font_size`, and at least 1 |
| Geometry.LinesIn | pdfconv.py:513 | the floor of the height over `1.3 * font_size`, and at least 1 |
| Geometry.MultilineNotShorter | pdfconv.py:505-516 | the multiline estimate exists iff the single-line one does, and it is never smaller |
| Geometry.LargerRectNotShorter | pdfconv.py:505-516 | a rectangle at least as wide and as high never gets a smaller limit |
| Geometry.OverlapArea | pdfconv.py:1165-1167 | the intersection area is symmetric; when positive, the rectangles overlap strictly and the intersection is a true rectangle inside both |
| PageIndex.CleanIsClean | pdfconv.py:531-534 | a span's clean text has no whitespace and no invisible character |
| PageIndex.AddSpanStores | pdfconv.py:531-539 | a span is stored exactly when its clean text is non-empty, as the record of its rectangle, raw text and clean text, with the clean text appended to the page text; earlier spans are untouched, and a span with no clean text leaves the index unchanged |
| PageIndex.PageCleanOfRaw | pdfconv.py:518-550 | the page text is the concatenation of the raw span texts with the invisible characters and the whitespace removed |
| PageIndex.AddSpanKeeps | pdfconv.py:531-544 | one more span keeps the index well formed |
| PageIndex.PageTextIndexWellFormed | pdfconv.py:528-550 | the three parallel sequences have one length; each character is the one its span and offset point at; span numbers do not decrease; each stored clean text is non-empty and clean; the page text is their concatenation |
| PageIndex.AppendChars | pdfconv.py:541-544 | the character loop appends the clean text, its span number once per character, and the offsets `0..n-1` |
| PageIndex.IndexSpan | pdfconv.py:531-544 | one pass of the span loop adds the span as the index function does |
| PageIndex.BuildPageTextIndex | pdfconv.py:518-550 | the method computes the index of the span list, and that index is well formed |
| Placement.FindRange | pdfconv.py:633 | the position of a span's range, if it has one, and no earlier range is that span's |
| Placement.TouchValid | pdfconv.py:633-637 | adding a character keeps one range per span and every range inside its span's clean text |
| Placement.TouchCovers | pdfconv.py:633-637 | adding a character makes its range cover its offset and keeps every offset covered before |
| Placement.GroupValid | pdfconv.py:628-637 | the grouping of a match has one range per span, each within its span's clean text |
| Placement.GroupCovers | pdfconv.py:628-637 | every indexed character of the match is covered by its span's range |
| Placement.GroupFacts | pdfconv.py:628-637 | on a well-formed index, the grouping is distinct, valid and covering |
| Placement.GroupBySpan | pdfconv.py:628-637 | the character loop computes the per-span `[min, max)` ranges of the match |
| Placement.RedactRectsOfValid | pdfconv.py:640-644 | with valid ranges there is one redaction rectangle per range: the partial rectangle of that range's span |
| Placement.RedactInsideSpans | pdfconv.py:640-644 | every redaction rectangle is well formed and inside its span's rectangle, so nothing outside the matched spans is erased |
| Placement.CollectRedactRects | pdfconv.py:640-644 | the span loop computes the redaction rectangles of the ranges |
| Placement.DetectionOfFacts | pdfconv.py:621-650 | a detection carries the repaired token, at least one redaction rectangle, and as detection rectangle their union padded by 1.5, which is a true rectangle containing each of them |
| Placement.DetectionsFacts | pdfconv.py:620-651 | there are at most as many detections as matches; each is the detection of some match, with at least one redaction rectangle, all inside its rectangle |
| Placement.CoveringMatchDetected | pdfconv.py:628-650 | on a well-formed index with well-formed span rectangles, a non-empty match that starts inside the page text is always detected |
| Placement.DetectionsSnoc | pdfconv.py:620-651 | one more match appends its detection, if it has one, after the others |
| Placement.DetectionsConcat | pdfconv.py:620-651 | the detections of two runs of matches are those of the first run followed by those of the second |
| Placement.DetectedInOrder | pdfconv.py:620-651 | every detected match contributes its detection, after those of the earlier matches and before those of the later ones |
| Placement.CoveringMatchesDetected | pdfconv.py:620-651 | when every match is non-empty and starts inside the page text, there is exactly one detection per match, the k-th being the detection of the k-th match |
| Placement.DetectMatch | pdfconv.py:620-650 | one pass of the match loop computes the detection of the match |
| Placement.IterPlaceholders | pdfconv.py:606-651 | the method builds the page's index and computes the detections of the matches on it, in match order |
| Widgets.ExportValue | pdfconv.py:143-154 | a non-empty alphanumeric result whose first character is not lower-case; `Yes` when no alphanumeric character survives; otherwise the surviving characters with the first one upper-cased |
| Widgets.ExportValueIdempotent | pdfconv.py:181-193 | normalising an export value twice, as `_ensure_radio_state` does, is normalising it once |
| Widgets.SnapRect | pdfconv.py:494-503 | check boxes and radio buttons get a square of the smaller side, inside a well-formed rectangle; other widgets keep the rectangle |
| Widgets.BitPosition | pdfconv.py:134-137 | every flag except hidden is one bit between 1 and 26; hidden has none |
| Widgets.SourceMasks | pdfconv.py:134-136 | read-only is 1, required is 2, multi-select is `1 << 21` and do-not-scroll is `0x800000`, as the program ORs them in |
| Widgets.BitPositionsDistinct | pdfconv.py:691-752 | different flags have different bits, so ORing one never sets another |
| Widgets.Prepared | pdfconv.py:666-670 | a radio button's `value` option becomes its export value (from `value`, else `default`, else the name); nothing else changes |
| Widgets.CheckBoxCaption | pdfconv.py:698-714 | a caption exists iff a value is provided or a `default` is given; a provided value is the caption, and otherwise it is `Yes` |
| Widgets.Placed | pdfconv.py:691-731 | the common set-up: the snapped rectangle, the required and read-only flags iff requested, the font name and size exactly on text-like widgets, a check box's caption as CheckBoxCaption gives it and no caption elsewhere, the known non-zero parent exactly for a radio button, and no other attribute |
| Widgets.TextFlags | pdfconv.py:736-752 | do-not-scroll always; multiline, rich text, password and hidden each exactly for its kinds |
| Widgets.ScriptChoice | pdfconv.py:775-824 | a `format` option, recognised or not, decides the scripts; without one the kind does |
| Widgets.Decimal | pdfconv.py:203-211 | the decimal text of a number: digits, ending in a digit, with no sign for a natural number |
| Widgets.DecimalInjective | pdfconv.py:1183 | different numbers have different decimal texts |
| Widgets.LengthGuard | pdfconv.py:196-212 | no guard exactly for a zero limit; otherwise the guard script with the limit's decimal text, stripped |
| Widgets.GuardAfterScript | pdfconv.py:838-840 | the guard goes on a line after an existing script; with no script it is the script |
| Widgets.ChoiceList | pdfconv.py:845 | one stripped choice per comma-separated piece |
| Widgets.Resized | pdfconv.py:921-938 | without a dimension option the widget is unchanged; otherwise the top-left corner stays; the width comes from cellwidth, columnwidth, width in that order, else its own; the height from rowheight, height, else its own; it fails exactly when one of the chosen values does not parse |
| Widgets.OnState | pdfconv.py:1067-1072 | the on-state is the first state whose lower-case form is neither `off` nor `normal` |
| Widgets.NormIsFolded | pdfconv.py:1075-1078 | a normal form has no `_` and no upper-case letter; a blank name has the empty normal form |
| Widgets.FirstMatch | pdfconv.py:1083-1087 | the first state with the provided value's normal form |
| Widgets.ProvidedStateWins | pdfconv.py:1080-1089 | a provided value that names a state selects the first such state |
| Widgets.OnStateChosen | pdfconv.py:1090-1101 | with no match, or nothing provided, the check box takes the on-state |
| Widgets.Finalize | pdfconv.py:1054-1120 | the finishing steps change only the widget's value |
| Widgets.RadioPolicy | pdfconv.py:955-1014 | skip mode (lines 717-719) drops every radio button; otherwise the add fails iff the set-up fails or strict mode meets a refusal; in fallback mode a refused radio button becomes a check box on the centred square of the original rectangle, or is dropped if that is refused too |
| Widgets.ConfigureSteps | pdfconv.py:691-953 | the configured widget is the branches' result with the resized rectangle and the border colour, width and style |
| Widgets.ConfiguredFlags | pdfconv.py:691-891 | required iff requested; read-only iff requested and not a signature (lines 886-891 clear it); multi-select iff a list box with a `multi` key (lines 849-850) |
| Widgets.ConfiguredTextFlags | pdfconv.py:734-752 | the text flags appear exactly on text widgets of their kinds |
| Widgets.BranchFlags | pdfconv.py:734-891 | the flags each branch adds to or removes from the common ones |
| Widgets.ConfiguredTooltip | pdfconv.py:881-915 | only buttons and signatures get a tooltip; a button gets its `tooltip` option; a signature gets `Sign here` only without a `tooltip` option |
| Widgets.ConfiguredRect | pdfconv.py:698-758 | the widget keeps the snapped corner; without a dimension option, a single-line text field is 1.5 font sizes high and every other widget keeps the snapped rectangle |
| Widgets.TextSetupLength | pdfconv.py:756-768 | the length limit is the estimate for the single-line or multiline rectangle, and with a limit the guard follows the kind's script |
| Widgets.ConfiguredLength | pdfconv.py:756-840 | a text field's limit is the estimate for its rectangle; none exactly for a non-positive font size or width; with a limit the guard follows the kind's script, without one the kind's script is the script |
| Widgets.ConfiguredChoice | pdfconv.py:843-852 | a choice field lists the comma-separated options, and takes the `default` option as its value, else the first listed option |
| Widgets.ConfiguredBorder | pdfconv.py:940-950 | required fields get the red, wider border; the rest get the blue one; the border style is always solid |
| Widgets.ConfiguredTextMargin | pdfconv.py:754 | exactly the text fields get the zero text margin |
| Widgets.ConfiguredSignature | pdfconv.py:886-919 | a signature is never read-only, has no font and no value, and is digital |
| Widgets.RadioCaption | pdfconv.py:854-860 | a created radio button's caption is its export value; it is a check box iff it fell back; a fallen-back one takes its check-box value starting from the export value; otherwise the export value when it is a state |
| Conversion.Expanded | pdfconv.py:1151-1156 | the detection rectangle grown by 18 horizontally and 12 vertically, which contains it |
| Conversion.CellArea | pdfconv.py:1165-1167 | the compared area is never negative |
| Conversion.CellAreaIsOverlap | pdfconv.py:1164-1167 | the compared area is the intersection's area; when positive, the intersection lies inside the cell and the expanded rectangle |
| Conversion.Best | pdfconv.py:1158-1171 | no cell is chosen iff no cell overlaps with positive area; otherwise the chosen cell has the greatest area, strictly greater than every earlier cell's |
| Conversion.BestStep | pdfconv.py:1166-1171 | one more cell replaces the choice exactly when its area is strictly greater |
| Conversion.CompareCell | pdfconv.py:1165-1171 | the loop body's test is the strict comparison with the running maximum |
| Conversion.SelectCell | pdfconv.py:1158-1171 | `found_in_table` iff some cell is chosen; the cell is the chosen one, else the detection rectangle |
| Conversion.Injected | pdfconv.py:1188-1190 | a placeholder found in a table and with no dimension option gets the cell's width and height; any other keeps its options |
| Conversion.InjectedSizeWins | pdfconv.py:1188-1190 | the injected sizes make the widget exactly the cell's size, anchored at its corner |
| Conversion.ParsedTextValued | pdfconv.py:333-352 | the parser stores only text values |
| Conversion.MarkerInjective | pdfconv.py:1183 | equal `{page}_N{n}` markers have equal occurrence numbers |
| Conversion.RenamedDistinct | pdfconv.py:1176-1183 | two different occurrences of one base get different names, whatever their pages |
| Conversion.CrossBaseCollision | pdfconv.py:1176-1183 | the second `a` on page 0 and a first `a_P0_N2` get the same name |
| Conversion.RegisterParent | pdfconv.py:1035-1038 | `RADIO_PARENTS` gets the first live widget's object number for a new name and is otherwise unchanged |
| Conversion.LaterRegistrationAppends | pdfconv.py:157-178 | once a group has a parent, a registration keeps it and only appends the widget; other groups are unchanged |
| Conversion.RegistryGroup | pdfconv.py:157-178 | after any registrations of a name, its group exists iff some widget was registered, its parent is the first object number that is not 0, its members are the widgets in order, and no other group exists |
| Conversion.RequestFor | pdfconv.py:1151-1193 | the request is named after the base's next occurrence and keeps the options text-valued |
| Conversion.CountBase | pdfconv.py:1177-1180 | the occurrence count of a base over the first n records is the number of positions among them that carry that base |
| Conversion.NamedUpToAt | pdfconv.py:1176-1183 | in records named by occurrence, each record is named after its occurrence |
| Conversion.UniquePerBase | pdfconv.py:1176-1183 | in records named by occurrence, two records of one base have different names |
| Conversion.AppendNamed | pdfconv.py:1176-1183 | a record named after the next occurrence of its base keeps the records named by occurrence |
| Conversion.CountsStep | pdfconv.py:1177-1180 | counting the new record's base keeps the counter equal to the number of records per base |
| Conversion.ConversionContext.constructor | pdfconv.py:1137-1142 | a fresh context has no counts and an empty registry |
| Conversion.ConversionContext.Reset | pdfconv.py:1137-1142 | a run starts with no counts and an empty registry |
| Conversion.ConversionContext.NextName | pdfconv.py:1176-1183 | the base's count goes up by one, the name is the renamed name of that occurrence, and the registry is unchanged |
| Conversion.ConversionContext.RegisterRadio | pdfconv.py:1028-1050 | both registry maps are updated as the registry functions say, the widget is linked to its group's parent, and the counts are unchanged |
| Conversion.ConversionContext.RequestParsed | pdfconv.py:1151-1193 | the request is the one the counts before the call give, and the base's count goes up by one |
| Conversion.ConversionContext.PlaceParsed | pdfconv.py:1174-1214 | the outcome is add_form_field's for that request and the known parent; the base is counted; only a radio button created as one is registered |
| Conversion.ConversionContext.PlaceDetection | pdfconv.py:1150-1214 | an unparsable placeholder ends with its error; otherwise it is placed as above, and named after its base's occurrence on its page |
| Conversion.ConversionContext.Convert | pdfconv.py:1125-1216 | a successful run names every placeholder after its occurrence among those of its base, and leaves the counter equal to the number of placeholders per base |

## Left out

- The PDF backend is not modelled. That covers opening and saving the
  document, `get_text`, `find_tables`, `add_widget`, `page.widgets()`,
  `update`, `button_states`, `add_redact_annot` and `apply_redactions`. Its
  answers are inputs. The model records the redaction rectangles per field
  but not their application to the page.
- The regular expression `PLACEHOLDER_PATTERN` is not modelled: its matches
  on the page text are an input.
- `difflib.get_close_matches` is an oracle that returns a keyword or
  nothing, because its ratio computation is outside the core.
- `float()` is an oracle that returns a real or fails. A failure is the
  uncaught `ValueError`, and it ends the run.
- Conversion.Injected: it stores the cell's width and height as numbers
  rather than their `str()` text, because `float(str(x)) == x` for the
  floats involved. The model therefore does not reproduce the text form
  that goes through `float()` again.
- `get_font_info` is an oracle from the page, rectangle and placeholder to
  a font name and size. The text colour and its division by 255 are left out
  because they only feed the backend.
- The post-pass appearance fix-up (pdfconv.py:1218-1252) only reads and
  writes live backend widgets. The same goes for `explicit_defaults`, which
  only that pass reads.
- `render_docx_to_pdf`, the command-line block, its colour parsing and its
  rewriting of the border constants are outside the core. The border
  constants are their default values.
- The JavaScript scripts are constant strings, because their bodies are
  never interpreted.
- Diagnostic prints are not modelled, and neither are the `try/except: pass`
  blocks around attribute writes. The model assumes that each write
  succeeds.
- `rect is None` in add_form_field cannot happen: the driver always passes
  the cell or the detection rectangle.
- Text.Lower: it lowers ASCII letters only. Python's `.lower()` also maps
  non-ASCII letters, and Unicode case mapping is not modelled. The
  case-insensitive keyword match, by contrast, includes the four non-ASCII
  letters that Python's `(?i)` folds onto ASCII letters.
- Widgets.BitPosition: the hidden flag has no bit. `PDF_FIELD_IS_HIDDEN` is
  not a field flag of section 12.7.3.1 of ISO 32000-1, and its numeric value
  is the backend's.
- Widgets.RadioPolicy: a radio button that fell back to a check box keeps the
  snapped original rectangle, as line 999 does. That discards any dimension
  override, which the model reproduces rather than corrects.
- The widget that `page.widgets()` finds after the add is an input for each
  detection.
- Geometry.PartialSpanRect: it takes its positions as naturals and computes
  `k * char_width` by repeated addition (`Times`). Geometry.TimesIsProduct
  proves this equal to the product. It computes over exact reals, not
  IEEE doubles, so the edges Geometry.PartialSpanRectEdges states are the
  exact-real ones.
- The page's span list is given flat, in block, line, span order, because
  the nesting of the backend's dictionary carries no information.
- Widgets.Finalize: its contract says only that the value is the one attribute the finishing steps change. Which value they choose is stated by Widgets.ProvidedStateWins, Widgets.OnStateChosen and Widgets.RadioCaption.
- Conversion.ConversionContext.Convert: its contract covers the naming and
  counting facts of the whole run. Each record's outcome and registry effect
  are stated per placeholder by PlaceDetection, not gathered over the run.
- Geometry.EstimateMaxLength: it computes over exact reals, not IEEE
  doubles. For width 101 and font size 12 the program's quotient
  99 / 6.6 comes out as 14.999999999999998 and its limit is 14; the model
  gives 15. The limit feeds `text_maxlen` and the length guard.
- Geometry.CharsPerLine: exact reals, not IEEE rounding, as for
  EstimateMaxLength (the 101 / 12 case above).
- Geometry.LinesIn: exact reals, not IEEE rounding. For height 78 and font
  size 12 the program counts 4 lines and the model 5.
- Geometry.OverlapArea: exact reals, not IEEE rounding.
- Conversion.CellArea: exact reals, not IEEE rounding. Two cells whose
  overlaps differ only below double precision may compare differently.
- Conversion.Best: it compares exact-real overlap areas. The program
  compares doubles, so a tie or near tie may pick another cell.
