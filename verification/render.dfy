/** The renderers and the format dispatch.

    Each Go renderer writes its output into a `strings.Builder`; every one of
    them produces a sequence of lines separated by single newlines, so each is
    modelled as the list of its lines joined by `JoinLines` (Markdown, which
    writes a newline after every line and then trims trailing newlines, is
    modelled literally and shown equal to that form in `RenderProps`).

    Only the ASCII and Unicode renderers use the working rows (filter, sort)
    and the alignments; Markdown, HTML, LaTeX and MediaWiki use the stored
    rows as they are. */
module Render {
  import opened Results
  import opened Text
  import opened Values
  import opened Layout
  import opened Tables
  import opened Pipeline

  const NoFields: string := "(no fields)"

  /** The `%v` text of every cell of a row. */
  function Texts(row: Row): (r: seq<string>)
    ensures |r| == |row|
    ensures forall i :: 0 <= i < |row| ==> r[i] == Format(row[i])
  {
    seq(|row|, i requires 0 <= i < |row| => Format(row[i]))
  }

  /** The alignment of each column, looked up by its field name. */
  function FieldAligns(t: Table): (r: seq<Alignment>)
    ensures |r| == |t.fields|
    ensures forall i :: 0 <= i < |t.fields| ==> r[i] == AlignOf(t, t.fields[i])
  {
    seq(|t.fields|, i requires 0 <= i < |t.fields| => AlignOf(t, t.fields[i]))
  }

  /** The cells of a header or data line of the boxed renderers: for each
      cell a space, the padded text, a space and the vertical bar. A row with
      fewer cells than fields gives a shorter line. */
  function BoxedCells(m: Measure, texts: seq<string>, ws: seq<nat>, aligns: seq<Alignment>, bar: char): string
    requires |texts| <= |ws| && |texts| <= |aligns|
  {
    if |texts| == 0 then ""
    else " " + Pad(m, texts[0], ws[0], aligns[0]) + [' ', bar] + BoxedCells(m, texts[1..], ws[1..], aligns[1..], bar)
  }

  // ASCII

  /** After the leading `+`: for each column a run of width+2 dashes and a `+`. */
  function AsciiRuns(ws: seq<nat>): string
  {
    if |ws| == 0 then "" else Repeat("-", ws[0] + 2) + "+" + AsciiRuns(ws[1..])
  }

  /** `line("+", "-")`. */
  function AsciiBorder(ws: seq<nat>): string
  {
    "+" + AsciiRuns(ws)
  }

  /** The column widths the boxed renderers pad to: those of the working
      rows, measured in `m`. */
  function BoxWidths(m: Measure, t: Table): (ws: seq<nat>)
    requires |t.fields| > 0 && Renderable(t)
    ensures |ws| == |t.fields|
  {
    WorkingRowsFit(t);
    ColumnWidths(m, t.fields, WorkingRows(t))
  }

  /** One line per row: the bar, then the row's cells. */
  function BoxedRows(m: Measure, rows: seq<Row>, ws: seq<nat>, aligns: seq<Alignment>, bar: char): (r: seq<string>)
    requires RowsFit(rows, |ws|) && |ws| <= |aligns|
    ensures |r| == |rows|
  {
    seq(|rows|, k requires 0 <= k < |rows| => [bar] + BoxedCells(m, Texts(rows[k]), ws, aligns, bar))
  }

  /** The lines of `RenderASCII` for a table with fields: border, header,
      border, one line per working row, border; widths in bytes. */
  function AsciiLines(t: Table): seq<string>
    requires |t.fields| > 0 && Renderable(t)
  {
    WorkingRowsFit(t);
    var ws := BoxWidths(Bytes, t);
    var aligns := FieldAligns(t);
    var border := AsciiBorder(ws);
    [border, "|" + BoxedCells(Bytes, t.fields, ws, aligns, '|'), border]
      + BoxedRows(Bytes, WorkingRows(t), ws, aligns, '|')
      + [border]
  }

  /** `RenderASCII` (also `RenderText` and `String`). */
  function RenderASCII(t: Table): string
    requires Renderable(t)
  {
    if |t.fields| == 0 then NoFields else JoinLines(AsciiLines(t))
  }

  // Unicode

  /** Runs of width+2 `─` separated by `sep`. */
  function UnicodeRuns(ws: seq<nat>, sep: char): string
  {
    if |ws| == 0 then ""
    else if |ws| == 1 then Repeat("─", ws[0] + 2)
    else Repeat("─", ws[0] + 2) + [sep] + UnicodeRuns(ws[1..], sep)
  }

  /** `line(left, "─", right, sep)`. */
  function UnicodeBorder(ws: seq<nat>, left: char, sep: char, right: char): string
  {
    [left] + UnicodeRuns(ws, sep) + [right]
  }

  /** The lines of `RenderUnicode` for a table with fields; widths in code
      points. */
  function UnicodeLines(t: Table): seq<string>
    requires |t.fields| > 0 && Renderable(t)
  {
    WorkingRowsFit(t);
    var ws := BoxWidths(Runes, t);
    var aligns := FieldAligns(t);
    [UnicodeBorder(ws, '┌', '┬', '┐'), "│" + BoxedCells(Runes, t.fields, ws, aligns, '│'), UnicodeBorder(ws, '├', '┼', '┤')]
      + BoxedRows(Runes, WorkingRows(t), ws, aligns, '│')
      + [UnicodeBorder(ws, '└', '┴', '┘')]
  }

  /** `RenderUnicode`. */
  function RenderUnicode(t: Table): string
    requires Renderable(t)
  {
    if |t.fields| == 0 then NoFields else JoinLines(UnicodeLines(t))
  }

  // Markdown

  /** Each text followed by ` | `. */
  function MarkdownCells(texts: seq<string>): string
  {
    if |texts| == 0 then "" else texts[0] + " | " + MarkdownCells(texts[1..])
  }

  /** Header, separator, one line per stored row. */
  function MarkdownLines(t: Table): seq<string>
  {
    ["| " + MarkdownCells(t.fields), "| " + Repeat("--- | ", |t.fields|)]
      + seq(|t.rows|, k requires 0 <= k < |t.rows| => "| " + MarkdownCells(Texts(t.rows[k])))
  }

  /** `RenderMarkdown`: every line written with a newline after it, then
      `strings.TrimRight(…, "\n")`. */
  function RenderMarkdown(t: Table): string
  {
    if |t.fields| == 0 then NoFields else TrimTrailingNewlines(Terminated(MarkdownLines(t)))
  }

  // Escaping

  /** Each character replaced by its image, in one left-to-right pass: what a
      `strings.NewReplacer` whose patterns are single characters does. */
  function ConcatMap(f: char -> string, s: string): string
  {
    if |s| == 0 then "" else f(s[0]) + ConcatMap(f, s[1..])
  }

  /** The `escape` closure of `RenderHTML`: four `strings.ReplaceAll`
      calls, each applied to the result of the previous one. */
  function HtmlEscapeChained(s: string): string
  {
    var s1 := ReplaceChar(s, '&', "&amp;");
    var s2 := ReplaceChar(s1, '<', "&lt;");
    var s3 := ReplaceChar(s2, '>', "&gt;");
    ReplaceChar(s3, '"', "&quot;")
  }

  /** The table of `htmlEscape`. */
  function HtmlEscapeChar(c: char): string
  {
    if c == '&' then "&amp;"
    else if c == '<' then "&lt;"
    else if c == '>' then "&gt;"
    else if c == '"' then "&quot;"
    else [c]
  }

  /** `htmlEscape`: a single-pass replacer (not called by any renderer). */
  function HtmlEscape(s: string): string
  {
    ConcatMap(HtmlEscapeChar, s)
  }

  /** The `escape` closure of `RenderLaTeX`: ten `strings.ReplaceAll`
      calls in a row, grouped here as the first five and the last five. The
      backslash is replaced first, so the braces of its replacement are
      escaped again by the `{` and `}` steps. */
  function LatexEscapeChained(s: string): string
  {
    LatexLastSteps(LatexFirstSteps(s))
  }

  /** The replacements of `\`, `_`, `&`, `%` and `$`, in that order. */
  function LatexFirstSteps(s: string): string
  {
    var s1 := ReplaceChar(s, '\\', "\\textbackslash{}");
    var s2 := ReplaceChar(s1, '_', "\\_");
    var s3 := ReplaceChar(s2, '&', "\\&");
    var s4 := ReplaceChar(s3, '%', "\\%");
    ReplaceChar(s4, '$', "\\$")
  }

  /** The replacements of `#`, `{`, `}`, `~` and `^`, in that order. */
  function LatexLastSteps(s: string): string
  {
    var s6 := ReplaceChar(s, '#', "\\#");
    var s7 := ReplaceChar(s6, '{', "\\{");
    var s8 := ReplaceChar(s7, '}', "\\}");
    var s9 := ReplaceChar(s8, '~', "\\textasciitilde{}");
    ReplaceChar(s9, '^', "\\textasciicircum{}")
  }

  /** The table of `latexEscape`. */
  function LatexEscapeChar(c: char): string
  {
    if c == '&' then "\\&"
    else if c == '%' then "\\%"
    else if c == '$' then "\\$"
    else if c == '#' then "\\#"
    else if c == '_' then "\\_"
    else if c == '{' then "\\{"
    else if c == '}' then "\\}"
    else if c == '~' then "\\textasciitilde{}"
    else if c == '^' then "\\textasciicircum{}"
    else if c == '\\' then "\\textbackslash{}"
    else [c]
  }

  /** `latexEscape`: a single-pass replacer (not called by any renderer). */
  function LatexEscape(s: string): string
  {
    ConcatMap(LatexEscapeChar, s)
  }

  // HTML

  /** Each text escaped and wrapped in `<tag>` … `</tag>`. */
  function HtmlCells(tag: string, texts: seq<string>): string
  {
    if |texts| == 0 then ""
    else "<" + tag + ">" + HtmlEscapeChained(texts[0]) + "</" + tag + ">" + HtmlCells(tag, texts[1..])
  }

  function HtmlLines(t: Table): seq<string>
  {
    ["<table border=\"1\">", "<tr>" + HtmlCells("th", t.fields) + "</tr>"]
      + seq(|t.rows|, k requires 0 <= k < |t.rows| => "<tr>" + HtmlCells("td", Texts(t.rows[k])) + "</tr>")
      + ["</table>"]
  }

  /** `RenderHTML`. */
  function RenderHTML(t: Table): string
  {
    JoinLines(HtmlLines(t))
  }

  // LaTeX

  /** The row terminator as the Go literal `" \\ \\hline\n"` writes it: a
      single backslash, then `\hline`. */
  const LatexRowEnd: string := " \\ \\hline"

  function LatexEscapeAll(texts: seq<string>): (r: seq<string>)
    ensures |r| == |texts|
    ensures forall i :: 0 <= i < |texts| ==> r[i] == LatexEscapeChained(texts[i])
  {
    seq(|texts|, i requires 0 <= i < |texts| => LatexEscapeChained(texts[i]))
  }

  function LatexLines(t: Table): seq<string>
  {
    ["\\begin{tabular}{|" + Repeat("l|", |t.fields|) + "}", "\\hline",
     JoinWith(LatexEscapeAll(t.fields), " & ") + LatexRowEnd]
      + seq(|t.rows|, k requires 0 <= k < |t.rows| => JoinWith(LatexEscapeAll(Texts(t.rows[k])), " & ") + LatexRowEnd)
      + ["\\end{tabular}"]
  }

  /** `RenderLaTeX`. */
  function RenderLaTeX(t: Table): string
  {
    JoinLines(LatexLines(t))
  }

  // MediaWiki

  /** Each text as `mark`, the text, a space; nothing is escaped. */
  function WikiCells(mark: string, texts: seq<string>): string
  {
    if |texts| == 0 then "" else mark + texts[0] + " " + WikiCells(mark, texts[1..])
  }

  /** The header cells follow `|-` on the same line. */
  function MediaWikiLines(t: Table): seq<string>
  {
    ["{| class=\"wikitable\"", "|-" + WikiCells("! ", t.fields)]
      + seq(|t.rows|, k requires 0 <= k < |t.rows| => "|-" + WikiCells("| ", Texts(t.rows[k])))
      + ["|}"]
  }

  /** `RenderMediaWiki`. */
  function RenderMediaWiki(t: Table): string
  {
    JoinLines(MediaWikiLines(t))
  }

  // Dispatch

  datatype OutputFormat =
    | PlainText | CsvFormat | JsonFormat | HtmlFormat | LatexFormat | MediaWikiFormat | MarkdownFormat

  /** The `switch strings.ToLower(format)` of `GetFormattedString`: "text"
      and "ascii" and every unrecognised name select the ASCII renderer. */
  function ParseFormat(name: string): (f: OutputFormat)
    ensures f == CsvFormat <==> ToLower(name) == "csv"
    ensures f == JsonFormat <==> ToLower(name) == "json"
    ensures f == HtmlFormat <==> ToLower(name) == "html"
    ensures f == LatexFormat <==> ToLower(name) == "latex"
    ensures f == MediaWikiFormat <==> ToLower(name) == "mediawiki"
    ensures f == MarkdownFormat <==> ToLower(name) == "markdown"
  {
    var n := ToLower(name);
    if n == "text" || n == "ascii" then PlainText
    else if n == "csv" then CsvFormat
    else if n == "json" then JsonFormat
    else if n == "html" then HtmlFormat
    else if n == "latex" then LatexFormat
    else if n == "mediawiki" then MediaWikiFormat
    else if n == "markdown" then MarkdownFormat
    else PlainText
  }

  /** `GetFormattedString`. The CSV and JSON renderers wrap `encoding/csv`
      and `encoding/json`, which are not part of this model; they are passed
      in. The ASCII renderer is used for every name but the six others. */
  function GetFormattedString(t: Table, name: string, renderCSV: Table -> string, renderJSON: Table -> string): (r: string)
    requires ParseFormat(name) == PlainText ==> Renderable(t)
    ensures ParseFormat(name) == PlainText ==> r == RenderASCII(t)
    ensures ParseFormat(name) == CsvFormat ==> r == renderCSV(t)
    ensures ParseFormat(name) == JsonFormat ==> r == renderJSON(t)
    ensures ParseFormat(name) == HtmlFormat ==> r == RenderHTML(t)
    ensures ParseFormat(name) == LatexFormat ==> r == RenderLaTeX(t)
    ensures ParseFormat(name) == MediaWikiFormat ==> r == RenderMediaWiki(t)
    ensures ParseFormat(name) == MarkdownFormat ==> r == RenderMarkdown(t)
  {
    match ParseFormat(name)
    case PlainText => RenderASCII(t)
    case CsvFormat => renderCSV(t)
    case JsonFormat => renderJSON(t)
    case HtmlFormat => RenderHTML(t)
    case LatexFormat => RenderLaTeX(t)
    case MediaWikiFormat => RenderMediaWiki(t)
    case MarkdownFormat => RenderMarkdown(t)
  }
}
