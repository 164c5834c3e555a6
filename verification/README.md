# prettytable in Dafny

This project models `prettytable`, a Go library that holds a table in memory
(field names, rows of arbitrary cells, per-field alignment, an optional sort
key and an optional row filter) and renders it as an ASCII box, a Unicode
box, GitHub Markdown, HTML, a LaTeX `tabular` or MediaWiki markup.

The model is functional. A `Table` is an immutable record. Every Go method
that mutates its receiver becomes a function from the old table to the new
one, and a method that can fail returns `Result<Table, TableError>`. The
modules follow the library's layers:

- `Results`: `Option` and `Result`.
- `Text`: string helpers, including Go's string `<` as a lexicographic
  order, decimal integer text, line joining and splitting, and
  `strings.ReplaceAll` for one character.
- `Values`: the cell value and its `%v` text.
- `Layout`: the display width and padding, and the column widths. Width is
  one of two additive measures: the UTF-8 byte length (Go `len`, used by the
  ASCII renderer) or the code-point count (`runeWidth`, used by the Unicode
  renderer). One set of lemmas covers both renderers.
- `Tables`: the table and its mutation layer.
- `Pipeline`: the working rows. Rows are filtered, then sorted by one key,
  as inlined in `RenderASCII` and `RenderUnicode`, up to the order of rows
  whose key texts are equal.
- `Render`: the six renderers and the `GetFormattedString` dispatch.
- `RenderProps`: the properties of the renderers.
- `Scenarios`: the expected results of the library's own test file, stated
  as lemmas.

Go's `sort.Slice` is not stable. The model sorts with an insertion sort and
proves only what any correct sort gives: the result is sorted by the key
text and is a permutation of the filtered rows. On top of that,
`Pipeline.SortedUnique` shows the output is fully determined whenever the
key texts tell the rows apart.

The Go renderers panic on some inputs:

- a row longer than the field list indexes past the width slice;
- a sort key index falls beyond a short row when there are at least two rows.

`Pipeline.Renderable` describes exactly the tables on which they do not
panic, and the boxed renderers require it. `Pipeline.WellFormedIsRenderable`
shows that every table whose rows match the field count is renderable.

Where the behaviour is surprising, the model keeps what the code does:

- Only the ASCII and Unicode renderers filter, sort and align. Markdown,
  HTML, LaTeX and MediaWiki print the stored rows as they are.
- `RenderLaTeX` escapes with its own chain of ten `strings.ReplaceAll`
  calls. The backslash is replaced first, and the braces of its replacement
  are then escaped again, so `\` becomes `\textbackslash\{\}`. The
  single-pass `latexEscape` is never called. `RenderProps.LatexEscapesAgreeIff`
  states that the two agree exactly on strings without a backslash.
- The LaTeX line terminator is ` \ \hline`, with a single backslash.
- Markdown lines end in `| ` with a trailing space.
- The dispatch does not know the name `"unicode"` and falls back to ASCII.
- A table has a fixed schema exactly when its field list is non-empty.
  There is no separate flag.
- `Clear` empties the rows and the field names but keeps the alignments,
  the sort key and the filter.

## Model

| member | source | states |
|---|---|---|
| Tables.NewTable | prettytable.go:74-76 | a new table has no fields, no rows, no alignments, no sort key and no filter |
| Tables.NewTableWithFields | prettytable.go:79-81 | the table has exactly the given field names, no rows, and default settings |
| Tables.SetFieldNames | prettytable.go:84-86 | the field names are replaced; rows and all settings are kept |
| Tables.FieldNamesAfterSet | prettytable.go:79-91 | the `FieldNames` getter returns exactly the list the constructor or `SetFieldNames` stored |
| Tables.FieldNames | prettytable.go:89-91 | definition of the getter; see Tables.FieldNamesAfterSet |
| Tables.AlignOf | prettytable.go:278-284 | definition of the alignment lookup; see Render.FieldAligns |
| Tables.IndexOf | prettytable.go:134-140 | the first index whose field equals the name, or None exactly when the name is absent |
| Tables.AddRow | prettytable.go:94-100 | fails with (row length, field count) exactly when there are fields and the row length differs; otherwise the row is appended at the end and nothing else changes |
| Tables.AddColumn | prettytable.go:103-121 | fails exactly when rows exist and the column length differs; otherwise the name is appended, and each existing row gains its cell at the end, or one single-cell row per value is created when there were no rows |
| Tables.DelRow | prettytable.go:124-130 | fails exactly when the index is outside [0, row count); otherwise only the row at that index is removed |
| Tables.DropCell | prettytable.go:145-149 | a row longer than the index loses exactly the cell at the index; a shorter row is kept as it is |
| Tables.DelColumn | prettytable.go:133-151 | fails exactly when no field has the name; otherwise the first matching index is removed from the fields and from every row long enough to have it |
| Tables.DelColumnAt | prettytable.go:133-151 | when the name's first index is k, the result keeps the fields around k and drops cell k from each row |
| Tables.ClearRows | prettytable.go:154-156 | rows become empty; fields and settings are kept |
| Tables.Clear | prettytable.go:159-162 | rows and fields become empty; alignments, sort key and filter are kept |
| Tables.SetAlign | prettytable.go:170-175 | the named field gets the alignment; every other name keeps its alignment; nothing else changes |
| Tables.SetAlignAll | prettytable.go:178-185 | every current field gets the alignment; names that are not fields keep theirs |
| Tables.SetSortBy | prettytable.go:188-191 | only the sort key and direction change |
| Tables.SetRowFilter | prettytable.go:194-196 | only the filter changes |
| Tables.AddRowKeepsWellFormed | prettytable.go:94-100 | adding a row to a table whose rows match its fields keeps that shape |
| Tables.AddColumnWellFormed | prettytable.go:103-121 | on a well-formed table, a successful AddColumn keeps every row matching the fields exactly when there were rows, or no fields, or the column is empty (otherwise the new single-cell rows are too short) |
| Tables.DelRowKeepsWellFormed | prettytable.go:124-130 | deleting a row keeps rows matching the fields |
| Tables.DelColumnKeepsWellFormed | prettytable.go:133-151 | deleting a column of a well-formed table leaves it well formed |
| Tables.AddRowThenDelRow | prettytable.go:94-130 | deleting the row just added gives back the original table |
| Tables.AddColumnThenDelColumn | prettytable.go:103-151 | on a well-formed table with rows, deleting a column just added under a new name gives back the original table |
| Tables.DelAppendedColumn | prettytable.go:103-151 | the same round trip, stated for any table that AddColumn returned |
| Values.Format | prettytable.go:253 | definition of the `%v` text of a cell; see Values.FormatIntReadsBack |
| Values.FormatIntReadsBack | prettytable.go:253 | the `%v` text of an integer starts with a minus sign exactly for negative values, followed by digits without leading zeros that denote the magnitude |
| Text.DecimalRoundTrip | prettytable.go:253 | reading the decimal text of a natural number gives the number back |
| Text.DecimalCanonical | prettytable.go:253 | every digit string without a leading zero is the decimal text of the number it denotes, so integer cell texts are exactly the canonical digit strings |
| Text.Less | prettytable.go:236-243 | definition of Go's string `<` as a lexicographic order on code points; see Text.LessIrreflexive, LessTransitive, LessTotal |
| Text.TrimTrailingNewlines | prettytable.go:745 | definition of `strings.TrimRight(s, "\n")`; see RenderProps.MarkdownJoinedLines |
| Text.LessIrreflexive | prettytable.go:237-242 | Go's string `<` on the key texts is irreflexive |
| Text.LessTransitive | prettytable.go:237-242 | the key order is transitive |
| Text.LessTotal | prettytable.go:237-242 | any two distinct key texts are ordered one way or the other |
| Text.LessEqAntisymmetric | prettytable.go:237-242 | two texts each at most the other are equal |
| Layout.RuneWidth | prettytable.go:674-676 | definition of the code-point count; see Layout.PadUnicodeCodePoints and RenderProps.UnicodeOutputWidths |
| Layout.Pad | prettytable.go:328-343 | a text at least as wide as the target is unchanged; otherwise the result is exactly the target width, and Left pads after, Right pads before, Center puts half the padding (rounded down) before and the rest after |
| Layout.PadString | prettytable.go:320-325 | padString is left-aligned padding in bytes |
| Layout.PadCenterBalanced | prettytable.go:336-339 | centred padding splits the spaces so that the right side has the same number as the left, or one more |
| Layout.PadTrimRoundTrip | prettytable.go:328-343 | trimming the spaces off a padded text that neither starts nor ends with a space gives the text back, for every width and alignment |
| Layout.PadUnicodeCodePoints | prettytable.go:679-695 | padAlignUnicode leaves a text of at least w code points unchanged, and otherwise gives exactly w code points with the text surrounded by spaces |
| Layout.HeaderWidths | prettytable.go:209-212 | definition of the starting widths, one per field name; see Layout.ColumnWidths |
| Layout.ColumnWidths | prettytable.go:248-258 | each column width is at least the header and every cell in the column, and equals one of them, so it is their maximum |
| Layout.HeadersDominate | prettytable.go:248-258 | when no cell is wider than its header, the columns are exactly as wide as their headers |
| Layout.ColumnWidthsSameRows | prettytable.go:248-258 | the widths depend only on which rows are present, so sorting cannot change them |
| Pipeline.FilterRows | prettytable.go:213-222 | the kept rows are exactly the rows satisfying the predicate, with their multiplicities, in their original order |
| Pipeline.InOrderTransitive | prettytable.go:236-243 | the comparator's "not after" order on key texts is transitive, ascending or descending |
| Pipeline.BeforeInOrder | prettytable.go:236-243 | for any two keyed rows, one of them may come first |
| Pipeline.Insert | prettytable.go:224-247 | inserting a keyed row into a sorted sequence keeps it sorted and adds exactly that row |
| Pipeline.SortRows | prettytable.go:224-247 | the sorted rows are a permutation of the input, ordered by the key text: non-decreasing, or non-increasing when reversed |
| Pipeline.SortedUnique | prettytable.go:224-247 | when key texts tell the rows apart, two sorted permutations of the same rows are equal |
| Pipeline.SortIndex | prettytable.go:225-232 | the sort column is the first field equal to the sort key, and none exists exactly when the key is empty or not a field |
| Pipeline.WorkingRows | prettytable.go:213-247 | the working rows are a permutation of the filtered rows; they are sorted by the key when the sort field exists and in stored order otherwise |
| Pipeline.WorkingRowsMembers | prettytable.go:213-247 | a row is a working row, as often as it is stored, exactly when it is stored and passes the filter |
| Pipeline.WorkingRowsMembersFiltered | prettytable.go:213-222 | every filtered row is a stored row |
| Pipeline.WorkingRowsDetermined | prettytable.go:224-247 | with distinct key texts, any sorted permutation of the filtered rows is the working sequence, whichever order the sort chose |
| Pipeline.WorkingRowsFit | prettytable.go:213-247 | filtering and sorting introduce no row longer than the fields |
| Pipeline.WorkingRowsKeepWidths | prettytable.go:248-258 | the column widths over the working rows equal those over the filtered rows |
| Pipeline.WellFormedIsRenderable | prettytable.go:224-310 | a table whose rows all match the field count never makes the boxed renderers panic |
| Render.ParseFormat | prettytable.go:750-769 | each format name is recognised exactly when its lower-cased form is that name; everything else is plain text |
| Render.GetFormattedString | prettytable.go:750-769 | the dispatch calls the renderer of the recognised name, and RenderASCII for any other name |
| Render.RenderASCII | prettytable.go:204-317 | definition; its output is characterised by RenderProps.AsciiLayout and RenderProps.AsciiOutputWidths |
| Render.RenderUnicode | prettytable.go:556-671 | definition; its output is characterised by RenderProps.UnicodeLayout and RenderProps.UnicodeOutputWidths |
| Render.RenderMarkdown | prettytable.go:710-746 | definition; its output is characterised by RenderProps.MarkdownLayout and RenderProps.MarkdownLineEnds |
| Render.RenderHTML | prettytable.go:463-493 | definition; its output is characterised by RenderProps.HtmlLayout |
| Render.RenderLaTeX | prettytable.go:496-530 | definition; its output is characterised by RenderProps.LatexLayout |
| Render.RenderMediaWiki | prettytable.go:533-553 | definition; its output is characterised by RenderProps.MediaWikiLayout |
| Render.HtmlEscape | prettytable.go:698-701 | definition of the single-pass replacer; see RenderProps.HtmlEscapesAgree and HtmlEscapeRemovesSpecials |
| Render.HtmlEscapeChained | prettytable.go:464-470 | definition of RenderHTML's four `ReplaceAll` calls; see RenderProps.HtmlEscapesAgree |
| Render.LatexEscape | prettytable.go:704-707 | definition of the single-pass replacer; see RenderProps.LatexEscapesAgreeIff |
| Render.LatexEscapeChained | prettytable.go:497-509 | definition of RenderLaTeX's ten `ReplaceAll` calls; see RenderProps.LatexChainedPerChar and LatexEscapeLengths |
| Render.FieldAligns | prettytable.go:278-284 | definition of the per-column alignment, looked up by field name; see RenderProps.AsciiReadBack, which holds for every alignment |
| RenderProps.BoxFits | prettytable.go:248-258 | in a well-formed renderable table, every header and working cell fits its column width |
| RenderProps.BoxedLineWidth | prettytable.go:277-315 | a header or data line whose texts fit their columns is 1 + Σ(wᵢ+3) wide |
| RenderProps.AsciiBorderWidth | prettytable.go:260-271 | an ASCII border line is 1 + Σ(wᵢ+3) bytes wide |
| RenderProps.AsciiBorderRuns | prettytable.go:260-271 | an ASCII border starts with `+`, and its dash runs are wᵢ+2 long, in column order |
| RenderProps.AsciiLineWidths | prettytable.go:204-317 | for a well-formed table, the line list RenderASCII joins has four lines plus one per working row, and every line has the same byte width 1 + Σ(wᵢ+3) |
| RenderProps.AsciiLayout | prettytable.go:204-317 | with single-line texts, splitting the RenderASCII output at newlines gives back exactly that line list: border, header, border, one line per working row, border |
| RenderProps.AsciiOutputWidths | prettytable.go:204-317 | for a well-formed table with single-line texts, the RenderASCII output has four lines plus one per working row, each 1 + Σ(wᵢ+3) bytes wide |
| RenderProps.UnicodeBorderWidth | prettytable.go:616-627 | a Unicode border line is 1 + Σ(wᵢ+3) code points wide |
| RenderProps.UnicodeBorderRuns | prettytable.go:616-627 | a Unicode border is its left corner, the `─` runs and its right corner, and the runs read back between the separators are wᵢ+2 long, in column order |
| RenderProps.UnicodeLineWidths | prettytable.go:556-671 | for a well-formed table, the line list RenderUnicode joins has four lines plus one per working row, all of the same code-point width |
| RenderProps.UnicodeLayout | prettytable.go:556-671 | with single-line texts, splitting the RenderUnicode output at newlines gives back exactly that line list |
| RenderProps.AsciiReadBack | prettytable.go:277-315 | when no field name or cell text holds a newline or a `|` or starts or ends with a space, splitting the ASCII output at newlines and each header or data line at `|` and trimming the spaces gives back the field names and the texts of each working row |
| RenderProps.UnicodeReadBack | prettytable.go:633-669 | the same read-back for the Unicode output, split at `│` |
| RenderProps.BarInCellSplits | prettytable.go:296-309 | cell text is written unescaped: a cell `a|b` reads back from its ASCII line as the two cells `a` and `b` |
| RenderProps.EdgeSpaceTrimmed | prettytable.go:328-343 | a cell ` x` reads back as `x`, since its space cannot be told from the padding |
| RenderProps.UnicodeOutputWidths | prettytable.go:556-671 | for a well-formed table with single-line texts, the RenderUnicode output has four lines plus one per working row, each 1 + Σ(wᵢ+3) code points wide |
| RenderProps.NoFieldsPlaceholder | prettytable.go:205-207 | ASCII, Unicode and Markdown give `(no fields)` exactly when there are no field names |
| RenderProps.MarkdownJoinedLines | prettytable.go:743-745 | writing a newline after each line and trimming trailing newlines is the same as joining the lines |
| RenderProps.MarkdownLineEnds | prettytable.go:716-741 | every Markdown line ends in `| `, with a trailing space |
| RenderProps.MarkdownLayout | prettytable.go:710-746 | with single-line texts, splitting the Markdown output at newlines gives back header, separator and one line per stored row |
| RenderProps.MediaWikiLayout | prettytable.go:533-553 | with single-line texts, the MediaWiki output is the opening line, the header on the `|-` line, one line per stored row, and the closing line |
| RenderProps.HtmlEscapesAgree | prettytable.go:464-470 | RenderHTML's chained escape equals the single-pass htmlEscape on every string |
| RenderProps.HtmlEscapeRemovesSpecials | prettytable.go:698-701 | escaped text contains no `<`, `>` or `"` |
| RenderProps.LatexChainedPerChar | prettytable.go:497-509 | RenderLaTeX's chained escape acts character by character, and a backslash becomes `\textbackslash\{\}` |
| RenderProps.LatexEscapeLengths | prettytable.go:497-509 | the chained escape is two characters longer than latexEscape per backslash, and equal to it when there is none |
| RenderProps.LatexEscapesAgreeIff | prettytable.go:704-707 | the chained escape and latexEscape agree on a string exactly when it has no backslash |
| RenderProps.LatexRowsEnd | prettytable.go:510-530 | the line list RenderLaTeX joins has four lines plus one per stored row, and the header and each data line end in ` \ \hline` |
| RenderProps.LatexLayout | prettytable.go:496-530 | with single-line texts, splitting the RenderLaTeX output at newlines gives back exactly that line list, so the output has four lines plus one per stored row and the header and data lines end in ` \ \hline` |
| RenderProps.HtmlLayout | prettytable.go:463-493 | with single-line texts, splitting the RenderHTML output at newlines gives the opening tag, the header row, one `<tr>` line per stored row and the closing tag |
| RenderProps.ParseFormatCaseInsensitive | prettytable.go:751 | the format name is matched regardless of ASCII letter case |
| RenderProps.UnicodeNameFallsBack | prettytable.go:766-767 | the name `unicode` is not recognised and renders as ASCII |
| Scenarios.BasicByAddRow | prettytable_test.go:11-20 | the two AddRow calls of the basic test succeed and build the sample table |
| Scenarios.BasicAscii | prettytable_test.go:22-31 | the sample table renders as the six-line box the test expects |
| Scenarios.CitiesByAddColumn | prettytable_test.go:50-67 | the four AddColumn calls of the city test succeed, the first creating one row per value, and build the four-column city table |
| Scenarios.CitiesAscii | prettytable_test.go:69-79 | the city table renders as the seven-line box the test expects, with columns 9, 4, 10 and 15 bytes wide |
| Scenarios.AddRowShortRow | prettytable_test.go:42-48 | a one-cell row on a two-field table is refused with (1, 2) |
| Scenarios.AddColumnShortColumn | prettytable_test.go:82-89 | a two-value column after a three-value column is refused with (2, 3) |
| Scenarios.ThreeByThreeByAddRow | prettytable_test.go:168-173 | the three AddRow calls of the delete test succeed and build the 3×3 table |
| Scenarios.DelRowAndDelColumn | prettytable_test.go:168-202 | deleting the middle row and then column A leaves the expected cells; index 10 and name Z are refused |
| Scenarios.TwoByTwoByAddRow | prettytable_test.go:204-208 | the two AddRow calls of the clear test succeed and build the 2×2 table |
| Scenarios.ClearRowsThenClear | prettytable_test.go:204-219 | ClearRows keeps the two fields; Clear empties fields and rows |
| Scenarios.SortByB | prettytable.go:224-247 | three rows keyed 2, 1, 3 come out in the order 1, 2, 3, or 3, 2, 1 when reversed |

## Left out

- `FromCSV` and `FromDBRows` read from an `io.Reader` and from `database/sql`. They depend on library parsers outside this model.
- `RenderCSV` and `RenderJSON` wrap `encoding/csv` and `encoding/json`, whose quoting and key order are outside this model. `Render.GetFormattedString` takes them as function parameters.
- `TableStyle` and `SetStyle` are stored but never read by a renderer.
- The output layouts (`RenderProps.AsciiLayout` and its siblings) are stated for texts without a newline. A newline inside a field name or cell passes through padding unchanged, as in `padAlign`, and then splits that line of the output in two; the line lists still describe what is written.
- `String` only calls `RenderASCII`, so it is not modelled separately.
- The `%v` text of floats and other Go values is not computed. A `Float` or `Other` cell carries the text the formatter would give it.
- Integers are unbounded. Go's `int` is 64 bits wide, but nothing in the library does arithmetic on cell values.
- Text.ToLower: folds ASCII letters only, weaker than `strings.ToLower`, which folds all of Unicode.
- Reading a rendered table back does not recover its texts in general. No renderer escapes the bar of a box or Markdown line, a newline, or a space at the edge of a cell. So a cell `a|b` reads back as two cells and ` x` as `x` (RenderProps.BarInCellSplits, RenderProps.EdgeSpaceTrimmed). The read-back is proved only for the ASCII and Unicode boxes and only for texts free of these (RenderProps.AsciiReadBack, RenderProps.UnicodeReadBack). No reader is modelled for Markdown, HTML, LaTeX or MediaWiki.
- `Alignment` is a Go `int`, and `SetAlign` accepts any value. A value other than the three constants takes the `default` branch of `padAlign` and `padAlignUnicode`, so it renders like `AlignLeft`. The model has only the three constructors, so such a value is modelled as `Left`.
- Strings are sequences of code points. Invalid UTF-8, whose bytes `len` and `[]rune` count differently, is not represented.
- Slice aliasing from the in-place `append` calls in `DelRow` and `DelColumn` is not modelled. The model has value semantics.
- The row filter is a pure total function. A filter that panics or has side effects is outside the model.
- The boxed renderers panic on rows longer than the field list and on a sort key past a short row. The model excludes those tables with `Pipeline.Renderable` instead of modelling the panic.
- Pipeline.SortRows: fixes one order among rows with equal key text. `sort.Slice` is not stable, so Go's choice among ties is not modelled; only sortedness and permutation are claimed for it.
