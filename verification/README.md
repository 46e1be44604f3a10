# ocdiff side-by-side layout, modelled in Dafny

ocdiff prints two texts next to each other. This project models its two
layout engines and proves what each promises.

**The Rust engine (`src/lib.rs`)** has four parts.

- **Alignment** (`diff_a_and_b`, `find_hole`). A line-level edit script
  becomes rows with an optional left and right line. A deleted or inserted
  line first looks for a "hole": a recent row whose side it would take is
  still empty and whose other side is similar, by Levenshtein distance.
  If it finds one, it fills that row in place.
- **Per-row conversion** (`convert_diff`, `diff_lines`). Each row becomes
  Equal/Delete/Insert segments, built by append-or-merge pushes
  (`Parts::push_*`).
- **Reflow** (`split_string_at_width`, `Part::split`, `split_parts`,
  `split_overflow`, `split_parts_diff`). The segments are cut into display
  rows of bounded width.
- **Gutter bookkeeping.** The line-number column width, the widest left
  side, and the per-row line-number labels.

**The older Python renderer (`python/ocdiff/icdiff_v2.py`)** covers:

- display width (`_display_len`);
- marker-aware line wrapping (`_split_line`, `_line_wrapper`);
- ANSI-aware real length and padding (`_real_len`, `_pad`, `_lpad`,
  `_rpad`);
- the ordered replacement table (`replace_all`);
- line formatting (`_format_line`, `_add_line_numbers`, `_collect_lines`);
- the separator rows (`_generate_table`);
- tab expansion (`_tab_newline_replace`);
- the wrap column that `Options` derives.

Each file is one module:

| file | module | covers |
|---|---|---|
| `wrappers.dfy` | `Wrappers` | `Option` |
| `text.dfy` | `Text` | whitespace, trimming, decimal rendering, UTF-8 length |
| `segments.dfy` | `Segments` | `Part`, `Parts`, the push operations, `split_string_at_width` |
| `edit_script.dfy` | `EditScript` | edit-script operations and `side` |
| `similarity.dfy` | `Similarity` | Levenshtein distance and `similar` |
| `alignment.dfy` | `Alignment` | `find_hole` and `diff_a_and_b` |
| `subdiff.dfy` | `SubDiff` | `diff_lines` and `convert_diff` |
| `gutter.dfy` | `Gutter` | line-number width, widest line, labels |
| `reflow.dfy` | `Reflow` | `split_parts`, `split_overflow`, `split_parts_diff` |
| `icdiff_text.dfy` | `IcdiffText` | `str.replace`, `replace_all`, display width, colours, `_real_len`, padding |
| `icdiff_wrap.dfy` | `IcdiffWrap` | `_split_line`, `_line_wrapper`, `Options` |
| `icdiff_table.dfy` | `IcdiffTable` | line numbers, `_format_line`, `_generate_table`, `_tab_newline_replace` |

**How the source's operations are modelled.**

- Operations that loop or mutate are methods. Each method is proved
  against a function that specifies it. Examples: `Parts::push_*` on the
  `PartsBuilder` class, `split_string_at_width`, `split_parts`,
  `split_parts_diff`, `diff_a_and_b`, `_split_line`, `_line_wrapper`,
  `_real_len` and `replace_all`.
- The properties are stated as lemmas about those functions.
- Edit scripts are inputs. The diff algorithms that produce them are not
  part of this model.
- Per-character display widths are parameters:
  - `wc`, for Rust's `unicode_width`;
  - `eaw`, for Python's East Asian F/W test.

## Model

| member | source | states |
|---|---|---|
| Segments.Part.Split | src/lib.rs:48-55 | both halves keep the segment's kind |
| Segments.PartSplitRestores | src/lib.rs:48-55 | head and tail keep the kind; head, the dropped text and tail spell the segment again; the dropped text is whitespace |
| Segments.PartsWidthAppend | src/lib.rs:122-124 | the width of a concatenation of segment lists is the sum of their widths |
| Segments.PushAppendOrMerge | src/lib.rs:89-121 | a push merges into the last segment exactly when the kinds agree, and appends otherwise; earlier segments are unchanged; the tagged text grows by exactly the pushed value; "no two adjacent segments share a kind" is kept |
| Segments.PartsBuilder.constructor | src/lib.rs:150-157 | a new builder has the given line number and no segments |
| Segments.PartsBuilder.PushPart | src/lib.rs:89-121 | the new segment list is the append-or-merge of the old one with the part; the line number is unchanged |
| Segments.PartsBuilder.PushEqual | src/lib.rs:89-99 | append-or-merge of an Equal segment |
| Segments.PartsBuilder.PushDelete | src/lib.rs:100-110 | append-or-merge of a Delete segment |
| Segments.PartsBuilder.PushInsert | src/lib.rs:111-121 | append-or-merge of an Insert segment |
| Segments.FitCountLongest | src/lib.rs:133-141 | the scan stops at the longest prefix whose width is at most `n`; every longer prefix is wider |
| Segments.SplitAtWidthHead | src/lib.rs:127-145 | the result is `(s, "")` when `s` fits; otherwise the head is the longest prefix of `s` that is at most `n` wide |
| Segments.SplitAtWidthRestores | src/lib.rs:127-145 | head, the trimmed whitespace and tail spell `s`; the head of a non-empty `s` is non-empty when its first character fits |
| Segments.CutRestores | src/lib.rs:143-144 | cutting at `k` and trimming the rest's leading whitespace loses only that whitespace |
| Segments.SplitStringAtWidth | src/lib.rs:127-145 | the loop returns exactly the split specified by `SplitAtWidth` |
| Text.TrimStart | src/lib.rs:144 | the result is a suffix of `s`; everything dropped is whitespace; the result starts with non-whitespace or is empty |
| Text.TrimEndChar | src/lib.rs:64 | the result is a prefix of `s`; everything dropped is `ch`; the result does not end in `ch` |
| Text.RStrip | python/ocdiff/icdiff_v2.py:211 | the result is a prefix; everything dropped is Python whitespace; the result does not end in whitespace |
| Text.ParseToDecimal | src/lib.rs:350 | the decimal rendering reads back as the number |
| Text.DecimalLength | src/lib.rs:350 | the rendering has as many characters as the number has digits; zero renders as "0"; there is no leading zero |
| Text.Utf8Len | src/lib.rs:259 | the byte length is between one and four bytes per character |
| EditScript.SideOf | src/lib.rs:63-86 | an operation is two-sided, left-only or right-only exactly by the indices it carries; line numbers are the indices plus one; the text loses its trailing newlines |
| Similarity.LevenshteinZero | src/lib.rs:258 | the distance is zero exactly for equal texts |
| Similarity.LevenshteinSymmetric | src/lib.rs:258 | the distance is symmetric |
| Similarity.SimilarReflexive | src/lib.rs:257-260 | every line is similar to itself, two empty lines included |
| Similarity.SimilarSymmetric | src/lib.rs:257-260 | `similar` does not depend on argument order |
| Similarity.SimilarThresholds | src/lib.rs:257-260 | a distance below 5 always pairs; a distance of at least 5 and at least 0.3 of the combined byte length never does |
| Alignment.RunStart | src/lib.rs:264-273 | the start of the trailing run of rows that lack the sought side: every row from there on lacks it, and the row before has it |
| Alignment.FindFrom | src/lib.rs:277-289 | the forward scan returns the first similar row before the run ends, or None when the run holds none |
| Alignment.FindHole | src/lib.rs:262-290 | a found hole lies in the trailing run, lacks the sought side and has a similar opposite text; no earlier row of the run is similar; no hole exists when the last row has the side |
| Alignment.Step | src/lib.rs:301-331 | one operation keeps "every row has a side" |
| Alignment.StepShape | src/lib.rs:301-331 | a two-sided operation appends a two-sided row; a one-sided one fills exactly one empty side in place (length and every other row unchanged) or appends one row |
| Alignment.AlignExtends | src/lib.rs:292-335 | a filled side is never overwritten: every prefix's rows and sides survive into the final alignment |
| Alignment.AlignPreservesLines | src/lib.rs:292-335 | reading the left (right) sides top to bottom gives exactly the script's left (right) lines in order |
| Alignment.DiffAAndB | src/lib.rs:292-335 | the loop produces `Align(changes)`, and every row has a side |
| SubDiff.SidePartsFaithful | src/lib.rs:148-173 | each side built by pushes is coalesced, and its tagged text is the script's characters for that side in order |
| SubDiff.ProperLeftStream | src/lib.rs:159-170 | for a well-formed script the left side spells the old text, using Equal and Delete characters only |
| SubDiff.ProperRightStream | src/lib.rs:159-170 | for a well-formed script the right side spells the new text, using Equal and Insert characters only |
| SubDiff.DiffLines | src/lib.rs:148-173 | both sides carry their line's number and the segments the script's pushes build |
| SubDiff.ConvertDiff | src/lib.rs:175-197 | a left-only row becomes one Delete segment and a right-only row one Insert segment, each with its whole text and number; a two-sided row is sub-diffed |
| SubDiff.TwoSidedRowTexts | src/lib.rs:148-197 | with a well-formed script of the two texts, the left segments spell the left text without Insert and the right spell the right text without Delete, both coalesced |
| SubDiff.KindsFromChars | src/lib.rs:148-173 | a kind missing from the tagged text is the kind of no non-empty segment |
| Gutter.LastLinenoNone | src/lib.rs:338-349 | with no present side, the last line number is 0 |
| Gutter.LastLinenoSome | src/lib.rs:338-349 | the last line number is that of the last row whose side is present |
| Gutter.FindMaxLinenoWidth | src/lib.rs:337-351 | the digit count of the larger last line number, and 1 for no rows |
| Gutter.FindWidestLineLeft | src/lib.rs:352-357 | the largest left width: every left side is at most it, one attains it, and 0 for no rows |
| Gutter.Center | src/lib.rs:372-375 | the string padded to the width, the smaller half of the padding in front; a longer string is unchanged |
| Gutter.GenerateLinenoStr | src/lib.rs:359-376 | blank for an absent side, an ellipsis when the number equals the previous one, the decimal number otherwise, centred in the width plus 2 |
| Gutter.LinenoLabels | src/lib.rs:396-418 | each row's labels come from the last number shown on that side, which changes only on rows where the side is present |
| Gutter.ContinuationLabel | src/lib.rs:359-376 | a row repeating the previous row's number on that side is labelled with the ellipsis |
| Gutter.FirstShownLabel | src/lib.rs:359-376 | the first present side shows its number, never the ellipsis |
| Reflow.NonEmpty | src/lib.rs:203-206 | dropping empty segments leaves only non-empty ones and keeps the tagged text |
| Reflow.SplitPart | src/lib.rs:202 | the head is at most the room left; head, whitespace gap and tail spell the segment in its kind; the whole segment comes back when it fits; a tail starts with non-whitespace |
| Reflow.SplitParts | src/lib.rs:199-221 | at least one row; every row is at most `n` wide and has no empty segment; the rows lay the input out greedily: each character keeps its kind and order and stays on the current row while it fits, and a new row starts, or whitespace is dropped, only at a character that does not fit or right after dropped whitespace; input that fits comes back as one row; the first row starts with the input's first character when that fits; continuation rows are non-empty and start with non-whitespace |
| Reflow.ReflowedKeepsVisible | src/lib.rs:199-221 | the rows' text is the input with only whitespace erased, so every visible character keeps its kind and order |
| Reflow.CutHolds | src/lib.rs:127-145 | one cut: head, whitespace gap and tail spell the segment; the head fits the room; the character after the head does not fit; a tail starts with non-whitespace |
| Reflow.DropInsideRow | src/lib.rs:127-221 | a worked case: with a zero-width accent, the space trimmed after "ab" at width 2 vanishes inside the row, and the accent joins that row |
| Reflow.KeepsFittingSpace | src/lib.rs:199-221 | a fitting space is never dropped: "a b c" at width 3 cannot reflow to "ab" and "c" |
| Reflow.SplitOverflow | src/lib.rs:222-235 | an absent side stays one absent row; a present side becomes present rows with its line number, whose segments reflow its segments |
| Reflow.Pad | src/lib.rs:247-248 | padding keeps the rows and fills up to the length with absent rows |
| Reflow.Block | src/lib.rs:242-251 | an input row becomes max(#left, #right) display rows; the shorter side is padded with absent rows |
| Reflow.PushBlock | src/lib.rs:245-251 | the inner loop appends exactly the block of paired rows |
| Reflow.SplitPartsDiff | src/lib.rs:236-254 | every input row is reflowed on both sides to the budget and the blocks are concatenated in input order; every display row produced fits the budget on both sides |
| Reflow.AssembleWithin | src/lib.rs:236-254 | every display row fits the budget on both sides |
| Reflow.AssembleFitting | src/lib.rs:236-254 | rows that already fit come out one for one, with only their empty segments dropped |
| IcdiffWrap.WrapColumn | python/ocdiff/icdiff_v2.py:57-61 | half the columns, rounded down, less 10 with line numbers and less 2 without |
| IcdiffWrap.WrapColumnPositive | python/ocdiff/icdiff_v2.py:57-61 | the wrap column is positive exactly from 22 columns (6 without line numbers) |
| IcdiffWrap.Options.constructor | python/ocdiff/icdiff_v2.py:47-61 | the fields are as given, and `wrapcolumn` is derived from `cols` and `line_numbers` |
| IcdiffText.RawColorize | python/ocdiff/icdiff_v2.py:64-65 | the length is the code's, the text's and the reset code's together |
| IcdiffText.RawColorizeParts | python/ocdiff/icdiff_v2.py:64-65 | the result is the colour's code, then the text unchanged, then the reset code |
| IcdiffText.SimpleColorize | python/ocdiff/icdiff_v2.py:68-69 | the length is that of the text coloured by its category's colour |
| IcdiffText.SimpleColorizeParts | python/ocdiff/icdiff_v2.py:68-69 | the result is the category colour's code, then the text unchanged, then the reset code |
| IcdiffText.CodeIsSgr | python/ocdiff/icdiff_v2.py:13-31 | every colour code is an ESC '[' … 'm' sequence |
| IcdiffText.ReplaceMatch | python/ocdiff/icdiff_v2.py:74 | at an occurrence of a non-empty pattern, replace emits the replacement and continues past it |
| IcdiffText.ReplaceSkip | python/ocdiff/icdiff_v2.py:74 | past a non-occurrence, replace copies one character |
| IcdiffText.ReplaceEmpty | python/ocdiff/icdiff_v2.py:74 | on the empty string, an empty pattern yields the replacement and any other pattern yields "" |
| IcdiffText.ReplaceAbsent | python/ocdiff/icdiff_v2.py:74 | without an occurrence, replace changes nothing |
| IcdiffText.ReplaceKeepsOut | python/ocdiff/icdiff_v2.py:74 | a character in neither the string nor the replacement never appears |
| IcdiffText.ReplacePrefix | python/ocdiff/icdiff_v2.py:74 | a prefix without the pattern's first character passes through unchanged |
| IcdiffText.ReplaceSuffix | python/ocdiff/icdiff_v2.py:74 | a suffix that cannot take part in a match passes through unchanged |
| IcdiffText.ReplaceEliminates | python/ocdiff/icdiff_v2.py:74 | replacing a character by another leaves no copy of it |
| IcdiffText.ReplaceRoundTrip | python/ocdiff/icdiff_v2.py:74 | swapping a character for an absent one and back is the identity |
| IcdiffText.ReplaceAll | python/ocdiff/icdiff_v2.py:72-75 | the loop applies the replacements one after another, in insertion order |
| IcdiffText.AppliedFrame | python/ocdiff/icdiff_v2.py:72-75 | replacements whose patterns cannot reach into the surroundings act on the middle only |
| IcdiffText.AppliedFrameRight | python/ocdiff/icdiff_v2.py:72-75 | the same with nothing in front: a trailing suffix is left alone |
| IcdiffText.AppliedKeepsOut | python/ocdiff/icdiff_v2.py:72-75 | a character in neither the string nor any replacement never appears |
| IcdiffText.CharWidth | python/ocdiff/icdiff_v2.py:79-87 | 2 exactly for East Asian F/W characters and carriage return, and 1 otherwise |
| IcdiffText.DisplayLen | python/ocdiff/icdiff_v2.py:78-89 | between one and two columns per character |
| IcdiffText.DisplayLenAppend | python/ocdiff/icdiff_v2.py:78-89 | the width of a concatenation is the sum of the widths |
| IcdiffText.DisplayLenNarrow | python/ocdiff/icdiff_v2.py:78-89 | a string of narrow characters is as wide as it is long |
| IcdiffText.DisplayLenReplace | python/ocdiff/icdiff_v2.py:78-89 | replacing a character by one of the same width keeps the width |
| IcdiffText.RealLength | python/ocdiff/icdiff_v2.py:179-195 | the real length is never negative |
| IcdiffText.ScanSound | python/ocdiff/icdiff_v2.py:184-193 | every ESC that a later '[' discounts was counted first |
| IcdiffText.RealLen | python/ocdiff/icdiff_v2.py:179-195 | the loop computes `RealLength` |
| IcdiffText.ScanSgr | python/ocdiff/icdiff_v2.py:184-193 | an ESC '[' … 'm' sequence adds the width of ESC less one (the '[' discounts the ESC) and closes its escape |
| IcdiffText.ColorizeKeepsRealLength | python/ocdiff/icdiff_v2.py:64-65 | colouring an ESC-free string keeps its real length |
| IcdiffText.ColorizeCleaned | python/ocdiff/icdiff_v2.py:64-75 | the cleanup passes leave the colour codes alone and clean only the text between them, which stays ESC-free |
| IcdiffText.RealLengthPlain | python/ocdiff/icdiff_v2.py:179-195 | text without markers or ESC has its display width as real length, a tab counting as one column |
| IcdiffText.RealLengthMarked | python/ocdiff/icdiff_v2.py:183 | a span marked "\0"+mark … "\1" has the real length of its content |
| IcdiffText.Pad | python/ocdiff/icdiff_v2.py:202-203 | only spaces, as many as the real length falls short of the field width; none when it does not |
| IcdiffText.LPad | python/ocdiff/icdiff_v2.py:206-207 | `s` is kept at the front |
| IcdiffText.RPad | python/ocdiff/icdiff_v2.py:198-199 | `s` is kept at the back |
| IcdiffText.RPadRealLength | python/ocdiff/icdiff_v2.py:198-203 | the result's real length is the larger of the field width and `s`'s |
| IcdiffText.LPadRealLength | python/ocdiff/icdiff_v2.py:202-207 | the same for left alignment, when `s` does not end inside an open escape |
| IcdiffWrap.FindCut | python/ocdiff/icdiff_v2.py:113-126 | the inner loop ends at the scan's stop, count and mark |
| IcdiffWrap.SplitLine | python/ocdiff/icdiff_v2.py:92-144 | the list is extended by exactly the entries `Wrap` specifies |
| IcdiffWrap.WrapShape | python/ocdiff/icdiff_v2.py:98-144 | a line that fits, or has a falsy number, is one unchanged entry; otherwise there are at least two entries, the first with the line's number and every later one with ">" |
| IcdiffWrap.MarkupConcat | python/ocdiff/icdiff_v2.py:116-126 | after a complete prefix, markup completeness and the text-character count are those of the rest |
| IcdiffWrap.CutShows | python/ocdiff/icdiff_v2.py:128-137 | head and rest of one cut show the whole text together, each mark in force where it was |
| IcdiffWrap.CutHeadWidth | python/ocdiff/icdiff_v2.py:116-126 | the head of a cut shows at most one column past the wrap column |
| IcdiffWrap.WrapRestores | python/ocdiff/icdiff_v2.py:92-144 | the entries, each rendered alone, show the line's characters in order, each with its mark |
| IcdiffWrap.WrapWidths | python/ocdiff/icdiff_v2.py:92-144 | every entry but the last is at most one column past the wrap column, and the last passes the fit test |
| IcdiffWrap.PairedRows | python/ocdiff/icdiff_v2.py:167-176 | as many rows as the longer side, in order; the shorter side is filled with ("", " "); every row has the flag |
| IcdiffWrap.PairUp | python/ocdiff/icdiff_v2.py:167-176 | the pop loop yields exactly the pairing |
| IcdiffWrap.LineWrapper | python/ocdiff/icdiff_v2.py:147-176 | the loop yields the rows of every input row, wrapped and paired, in order |
| IcdiffWrap.WrappedAppend | python/ocdiff/icdiff_v2.py:147-176 | wrapping a concatenation wraps each part: rows keep their input order |
| IcdiffWrap.WrapRowShape | python/ocdiff/icdiff_v2.py:151-176 | a separator row yields nothing; any other row yields max(#from, #to) rows, the first with both line numbers, all with the row's flag |
| IcdiffWrap.WrappedFlags | python/ocdiff/icdiff_v2.py:151-154 | no yielded row is a separator |
| IcdiffTable.IntToDecimal | python/ocdiff/icdiff_v2.py:221 | at least one character, all digits or '-' |
| IcdiffTable.AddLineNumbers | python/ocdiff/icdiff_v2.py:217-225 | "" and ">" leave the text alone; a number puts a prefix and a space before the text |
| IcdiffTable.ColoredNumberLength | python/ocdiff/icdiff_v2.py:221-223 | a coloured numeral is as wide as it is long |
| IcdiffTable.LineNumberPrefix | python/ocdiff/icdiff_v2.py:217-225 | the prefix is spaces up to 8 columns, the number in the line-number colour, then a space; its real length is the larger of 8 and the numeral's length |
| IcdiffTable.FormatLine | python/ocdiff/icdiff_v2.py:210-214 | the stripped text ends the result; without numbering, the result is just the stripped text |
| IcdiffTable.FormatLineIdempotent | python/ocdiff/icdiff_v2.py:210-214 | formatting without a number prefix is idempotent |
| IcdiffTable.CollectLines | python/ocdiff/icdiff_v2.py:228-239 | one formatted pair per row, in order |
| IcdiffTable.TableWithRows | python/ocdiff/icdiff_v2.py:286-299 | one row per entry after the dropped head, in order, each separator becoming the separator row |
| IcdiffTable.GenerateTableRows | python/ocdiff/icdiff_v2.py:286-299 | a separator at index 0 is dropped; every other separator becomes the coloured "---" pair; other entries pass through unchanged and in order |
| IcdiffTable.ExpandTabsNoTab | python/ocdiff/icdiff_v2.py:249 | tab expansion leaves no tab |
| IcdiffTable.ExpandTabsIdentity | python/ocdiff/icdiff_v2.py:249 | a string without tabs is unchanged by expansion |
| IcdiffTable.ExpandTabsStop | python/ocdiff/icdiff_v2.py:249 | on one line, an expanded tab ends at a multiple of the tab size |
| IcdiffTable.ExpandLineWithoutTabs | python/ocdiff/icdiff_v2.py:245-253 | a line without tabs only loses its trailing newlines |
| IcdiffTable.ExpandLineUntabbed | python/ocdiff/icdiff_v2.py:245-253 | for a line without "\0", turning the tab marks back into spaces gives Python's `expandtabs` of the line with its trailing newlines cut: every tab mark stands where the expansion has a blank, and every other character is the expansion's own |
| IcdiffTable.ExpandHidden | python/ocdiff/icdiff_v2.py:247-251 | hiding spaces as "\0" before expansion and showing them again afterwards gives the plain expansion |
| IcdiffTable.TabNewlineReplace | python/ocdiff/icdiff_v2.py:242-257 | both sides' lines are expanded one for one, in order |

## Left out

- pyo3 glue (`init_mod`) and `python/ocdiff/__init__.py`: interpreter bindings, no layout logic.
- The `similar` crate's line and character diffs (`TextDiff`, `unified_diff`, `context_radius`, hunks): edit scripts are inputs. The hunks are flattened into one script.
- The `levenshtein` crate: replaced by a plain recursive definition of edit distance.
- `similar`'s float division: restated as `10 * d < 3 * (bytes a + bytes b)`. That ignores `f64` rounding and the `usize` to `f64` conversion, so it is exact below about 10^15 bytes; the NaN of two empty lines compares false in both forms.
- `unicode_width` and `unicodedata.east_asian_width`: per-character width parameters (`wc`, `eaw`). Rust's `unwrap_or(0)` is folded into `wc`. The model takes `str::width()` (src/lib.rs:124, 128) to be the sum of `wc` over the characters; releases of `unicode-width` that measure some character sequences as a whole differ, and the crate version is not part of this model.
- `generate_html`, `generate_html_parts`, `generate_console`, `generate_console_parts`: string formatting around `html_escape` and `ansi_term`. Only their line-number tracking is modelled (`LinenoLabels`).
- `_colorize`'s regular-expression rewrite, `make_table` (difflib's `_mdiff`), `diff_files`, `cli.py` and `helpers.py`: foreign libraries, file I/O and terminal ioctl.
- Integer widths: `usize` arithmetic is modelled with `nat`. The one subtraction that can underflow in the source is excluded by a precondition (see `SplitPartsDiff`).
- SplitParts (Reflow.SplitParts): requires every visible character to fit into `n` columns. A wider visible character eventually starts a row with an empty head and an unchanged tail, and the source recurses forever. Wider whitespace is accepted: it is trimmed off at the cut.
- SplitParts (Reflow.Reflowed, the relation SplitParts ensures): the relation does not see segment boundaries, so it does not fix the layout uniquely. After dropped whitespace, the next character may stay on the row when it fits or may start a new row; the source starts a new row whenever the cut segment leaves a tail, and continues the row only into the next segment (`Reflow.DropInsideRow`). A run of dropped whitespace may also continue into the next segment where it would fit, while the source's `trim_start` stops at the segment's end. What the relation does fix: no character that fits after a kept character is dropped or moved to a new row (`Reflow.KeepsFittingSpace`).
- SplitPartsDiff (Reflow.SplitPartsDiff): requires `max_total_width / 2` to cover the gutter. Otherwise the `usize` subtraction at src/lib.rs:239 underflows.
- FindHole (Alignment.FindHole): requires every row to have a side. The source panics on a row with none, and alignment never builds one (`Alignment.Step`).
- DiffLines (SubDiff.DiffLines): requires every operation to be a (tag, side) pair the source handles. The others reach `unreachable!`.
- SplitLine (IcdiffWrap.SplitLine): a line that fits as it is, or has a falsy number, is accepted as is. Any other line must have complete markup (every "\0" followed by a mark character) and a positive wrap column. With a wrap column of 0 or less every cut is empty and the source loops forever. A dangling "\0" raises `IndexError` when a cut scans it; when it lies beyond the last cut the source finishes, which the model does not cover. `data_list` is passed in and the extended list returned, rather than mutated.
- SplitPart (Reflow.SplitPart): states the properties of the cut, not equality with `Part.Split`. `Segments.PartSplitRestores` and `Reflow.CutHolds` relate the two.
- WrapWidths (IcdiffWrap.WrapWidths): bounds each non-final entry by the wrap column plus one. A double-width character may straddle the wrap column.
- LPadRealLength (IcdiffText.LPadRealLength): holds only when `s` does not end inside an unterminated ESC '[' sequence. Inside one, the padding spaces are swallowed by the escape.
- LineNumberPrefix (IcdiffTable.LineNumberPrefix): requires every ASCII character to be narrow.
- ExpandLineWithoutTabs (IcdiffTable.ExpandLineWithoutTabs): requires the line to contain no "\0". The source uses "\0" to hide real spaces, so a "\0" in the input comes back as a space.
- ExpandLineUntabbed (IcdiffTable.ExpandLineUntabbed): requires the line to contain no "\0", for the same reason.
- ColorizeKeepsRealLength (IcdiffText.ColorizeKeepsRealLength): requires ESC to be narrow (East Asian width class N).
- Colour and category names are datatypes, so the `KeyError` of an unknown name is not modelled.
- Generators (`_line_wrapper`, `_collect_lines`, `_generate_table`) are modelled as functions returning the full list of what they yield.
- `Options`: the `wrapcolumn` constructor argument is accepted by the dataclass and then overwritten by `__post_init__`, so it is not a parameter.
