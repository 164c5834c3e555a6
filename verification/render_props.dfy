/** Properties of the renderers: the box renderers' line widths and border
    runs, reading their texts back, the placeholder for a table without
    fields, the line structure of every format, the two HTML escapes, the two
    LaTeX escapes, and the format dispatch. */
module RenderProps {
  import opened Results
  import opened Text
  import opened Values
  import opened Layout
  import opened Tables
  import opened Pipeline
  import opened Render

  function Sum(ws: seq<nat>): nat
  {
    if |ws| == 0 then 0 else ws[0] + Sum(ws[1..])
  }

  /** Width of every line of a box table with these column widths: one bar
      plus, per column, the cell width, two spaces of margin and a bar. */
  function LineWidth(ws: seq<nat>): nat
  {
    1 + Sum(ws) + 3 * |ws|
  }

  // Widths of the box renderers' lines

  /** A padded cell whose text fits is exactly as wide as its column. */
  lemma PadFits(m: Measure, s: string, w: nat, a: Alignment)
    requires Width(m, s) <= w
    ensures Width(m, Pad(m, s, w, a)) == w
  {
  }

  lemma {:induction false} BoxedCellsWidth(m: Measure, texts: seq<string>, ws: seq<nat>, aligns: seq<Alignment>, bar: char)
    requires |texts| == |ws| && |ws| <= |aligns|
    requires forall i :: 0 <= i < |ws| ==> Width(m, texts[i]) <= ws[i]
    requires Width(m, [bar]) == 1
    ensures Width(m, BoxedCells(m, texts, ws, aligns, bar)) == Sum(ws) + 3 * |ws|
    decreases |ws|
  {
    if |ws| > 0 {
      var p := Pad(m, texts[0], ws[0], aligns[0]);
      PadFits(m, texts[0], ws[0], aligns[0]);
      var rest := BoxedCells(m, texts[1..], ws[1..], aligns[1..], bar);
      BoxedCellsWidth(m, texts[1..], ws[1..], aligns[1..], bar);
      WidthAscii(m, " ");
      assert [' ', bar] == " " + [bar];
      WidthAppend(m, " ", [bar]);
      WidthAppend(m, " ", p);
      WidthAppend(m, " " + p, [' ', bar]);
      WidthAppend(m, " " + p + [' ', bar], rest);
    }
  }

  lemma {:induction false} AsciiRunsWidth(ws: seq<nat>)
    ensures Width(Bytes, AsciiRuns(ws)) == Sum(ws) + 3 * |ws|
    decreases |ws|
  {
    if |ws| > 0 {
      var run := Repeat("-", ws[0] + 2);
      WidthAscii(Bytes, run);
      WidthAscii(Bytes, "+");
      AsciiRunsWidth(ws[1..]);
      WidthAppend(Bytes, run, "+");
      WidthAppend(Bytes, run + "+", AsciiRuns(ws[1..]));
    }
  }

  lemma {:induction false} UnicodeRunsWidth(ws: seq<nat>, sep: char)
    requires |ws| >= 1
    ensures Width(Runes, UnicodeRuns(ws, sep)) + 1 == Sum(ws) + 3 * |ws|
    decreases |ws|
  {
    if |ws| > 1 {
      UnicodeRunsWidth(ws[1..], sep);
    }
  }

  /** Every data line of a box table whose rows are full and fit the
      column widths is as wide as the widths say. */
  lemma BoxedRowsWidths(m: Measure, rows: seq<Row>, ws: seq<nat>, aligns: seq<Alignment>, bar: char)
    requires RowsFit(rows, |ws|) && |ws| <= |aligns| && Width(m, [bar]) == 1
    requires forall k :: 0 <= k < |rows| ==> |rows[k]| == |ws|
    requires forall k, i :: 0 <= k < |rows| && 0 <= i < |rows[k]| ==> CellWidth(m, rows[k][i]) <= ws[i]
    ensures forall k :: 0 <= k < |rows| ==> Width(m, BoxedRows(m, rows, ws, aligns, bar)[k]) == LineWidth(ws)
  {
    forall k | 0 <= k < |rows|
      ensures Width(m, BoxedRows(m, rows, ws, aligns, bar)[k]) == LineWidth(ws)
    {
      BoxedCellsWidth(m, Texts(rows[k]), ws, aligns, bar);
      WidthAppend(m, [bar], BoxedCells(m, Texts(rows[k]), ws, aligns, bar));
    }
  }

  /** The working rows of a well-formed table are full rows. */
  lemma WorkingRowsFull(t: Table)
    requires WellFormed(t) && SortSafe(t)
    ensures forall k :: 0 <= k < |WorkingRows(t)| ==> |WorkingRows(t)[k]| == |t.fields|
  {
    var w := WorkingRows(t);
    forall k | 0 <= k < |w|
      ensures |w[k]| == |t.fields|
    {
      WorkingRowsMembers(t, w[k]);
      var j :| 0 <= j < |t.rows| && t.rows[j] == w[k];
    }
  }

  /** A line made of a bar and the cells of a full row is as wide as the
      widths say. */
  lemma BoxedLineWidth(m: Measure, texts: seq<string>, ws: seq<nat>, aligns: seq<Alignment>, bar: char)
    requires |texts| == |ws| && |ws| <= |aligns| && Width(m, [bar]) == 1
    requires forall i :: 0 <= i < |ws| ==> Width(m, texts[i]) <= ws[i]
    ensures Width(m, [bar] + BoxedCells(m, texts, ws, aligns, bar)) == LineWidth(ws)
  {
    BoxedCellsWidth(m, texts, ws, aligns, bar);
    WidthAppend(m, [bar], BoxedCells(m, texts, ws, aligns, bar));
  }

  lemma AsciiBorderWidth(ws: seq<nat>)
    ensures Width(Bytes, AsciiBorder(ws)) == LineWidth(ws)
  {
    WidthAscii(Bytes, "+");
    AsciiRunsWidth(ws);
    WidthAppend(Bytes, "+", AsciiRuns(ws));
  }

  lemma UnicodeBorderWidth(ws: seq<nat>, left: char, sep: char, right: char)
    requires |ws| >= 1
    ensures Width(Runes, UnicodeBorder(ws, left, sep, right)) == LineWidth(ws)
  {
    UnicodeRunsWidth(ws, sep);
  }

  /** Four frame lines around the data lines, all of one width. */
  lemma FrameWidths(m: Measure, top: string, header: string, mid: string, rows: seq<string>, bottom: string, w: nat)
    requires Width(m, top) == w && Width(m, header) == w && Width(m, mid) == w && Width(m, bottom) == w
    requires forall k :: 0 <= k < |rows| ==> Width(m, rows[k]) == w
    ensures var lines := [top, header, mid] + rows + [bottom];
      forall k :: 0 <= k < |lines| ==> Width(m, lines[k]) == w
  {
    var lines := [top, header, mid] + rows + [bottom];
    forall k | 0 <= k < |lines|
      ensures Width(m, lines[k]) == w
    {
      if 3 <= k < |lines| - 1 {
        assert lines[k] == rows[k - 3];
      }
    }
  }

  /** The header cells and the cells of every working row of a well-formed
      table fit the column widths. */
  lemma BoxFits(t: Table, m: Measure)
    requires WellFormed(t) && |t.fields| > 0 && Renderable(t)
    ensures RowsFit(WorkingRows(t), |t.fields|)
    ensures forall k :: 0 <= k < |WorkingRows(t)| ==> |WorkingRows(t)[k]| == |t.fields|
    ensures forall i :: 0 <= i < |t.fields| ==> Width(m, t.fields[i]) <= BoxWidths(m, t)[i]
    ensures forall k, i :: 0 <= k < |WorkingRows(t)| && 0 <= i < |WorkingRows(t)[k]| ==>
      CellWidth(m, WorkingRows(t)[k][i]) <= BoxWidths(m, t)[i]
  {
    WorkingRowsFit(t);
    WorkingRowsFull(t);
  }

  /** Every line of the ASCII table of a well-formed table (borders, header,
      rows) is 1 + Σ(wᵢ + 3) bytes long, where wᵢ are the column widths, and
      there are four lines besides the rows. */
  lemma AsciiLineWidths(t: Table)
    requires WellFormed(t) && |t.fields| > 0 && Renderable(t)
    ensures |AsciiLines(t)| == |WorkingRows(t)| + 4
    ensures forall k :: 0 <= k < |AsciiLines(t)| ==>
      Width(Bytes, AsciiLines(t)[k]) == LineWidth(BoxWidths(Bytes, t))
  {
    BoxFits(t, Bytes);
    var ws := BoxWidths(Bytes, t);
    var aligns := FieldAligns(t);
    var rows := BoxedRows(Bytes, WorkingRows(t), ws, aligns, '|');
    WidthAscii(Bytes, "|");
    AsciiBorderWidth(ws);
    BoxedLineWidth(Bytes, t.fields, ws, aligns, '|');
    BoxedRowsWidths(Bytes, WorkingRows(t), ws, aligns, '|');
    FrameWidths(Bytes, AsciiBorder(ws), "|" + BoxedCells(Bytes, t.fields, ws, aligns, '|'), AsciiBorder(ws),
      rows, AsciiBorder(ws), LineWidth(ws));
  }

  /** The same for the Unicode table, in code points: the box-drawing corners
      and junctions take the place of the ASCII `+`, one code point each. */
  lemma UnicodeLineWidths(t: Table)
    requires WellFormed(t) && |t.fields| > 0 && Renderable(t)
    ensures |UnicodeLines(t)| == |WorkingRows(t)| + 4
    ensures forall k :: 0 <= k < |UnicodeLines(t)| ==>
      Width(Runes, UnicodeLines(t)[k]) == LineWidth(BoxWidths(Runes, t))
  {
    BoxFits(t, Runes);
    var ws := BoxWidths(Runes, t);
    var aligns := FieldAligns(t);
    var rows := BoxedRows(Runes, WorkingRows(t), ws, aligns, '│');
    UnicodeBorderWidth(ws, '┌', '┬', '┐');
    UnicodeBorderWidth(ws, '├', '┼', '┤');
    UnicodeBorderWidth(ws, '└', '┴', '┘');
    BoxedLineWidth(Runes, t.fields, ws, aligns, '│');
    BoxedRowsWidths(Runes, WorkingRows(t), ws, aligns, '│');
    FrameWidths(Runes, UnicodeBorder(ws, '┌', '┬', '┐'), "│" + BoxedCells(Runes, t.fields, ws, aligns, '│'),
      UnicodeBorder(ws, '├', '┼', '┤'), rows, UnicodeBorder(ws, '└', '┴', '┘'), LineWidth(ws));
  }

  // Reading the dash runs back from a border

  /** The length of the run of `c` that starts the text. */
  function LeadingRun(s: string, c: char): (n: nat)
    ensures n <= |s|
  {
    if |s| > 0 && s[0] == c then 1 + LeadingRun(s[1..], c) else 0
  }

  /** The lengths of the dash runs of a border tail `-…-+-…-+…`, or None if
      the text is not of that shape. */
  function DashRuns(s: string): Option<seq<nat>>
    decreases |s|
  {
    if |s| == 0 then Some([])
    else
      var n := LeadingRun(s, '-');
      if n < |s| && s[n] == '+' then
        match DashRuns(s[n + 1..])
        case None => None
        case Some(rest) => Some([n] + rest)
      else None
  }

  lemma {:induction false} LeadingRunOf(c: char, n: nat, rest: string)
    requires |rest| == 0 || rest[0] != c
    ensures LeadingRun(Repeat([c], n) + rest, c) == n
    decreases n
  {
    if n > 0 {
      assert Repeat([c], n) + rest == [c] + (Repeat([c], n - 1) + rest);
      LeadingRunOf(c, n - 1, rest);
    } else {
      assert Repeat([c], n) + rest == rest;
    }
  }

  lemma RunThenPlus(n: nat, tail: string, s: string)
    requires s == Repeat("-", n) + ("+" + tail)
    ensures |s| == n + 1 + |tail| && s[n] == '+' && s[n + 1..] == tail
  {
  }

  /** A run of n dashes and a `+` in front of a tail adds n in front of the
      runs read from the tail. */
  lemma DashRunsOfRun(n: nat, tail: string, s: string)
    requires s == Repeat("-", n) + ("+" + tail)
    ensures DashRuns(s) ==
      match DashRuns(tail)
      case None => None
      case Some(rest) => Some([n] + rest)
  {
    LeadingRunOf('-', n, "+" + tail);
    RunThenPlus(n, tail, s);
  }

  lemma AsciiRunsCons(ws: seq<nat>)
    requires |ws| > 0
    ensures AsciiRuns(ws) == Repeat("-", ws[0] + 2) + ("+" + AsciiRuns(ws[1..]))
  {
  }

  /** Each width plus two: the dash-run length of each column. */
  function RunLengths(ws: seq<nat>): (r: seq<nat>)
    ensures |r| == |ws| && forall i :: 0 <= i < |ws| ==> r[i] == ws[i] + 2
  {
    if |ws| == 0 then [] else [ws[0] + 2] + RunLengths(ws[1..])
  }

  /** Each dash run of the ASCII border is its column's width plus two: the
      border read back gives exactly wᵢ + 2 for every column, in order. */
  lemma {:induction false} AsciiBorderRuns(ws: seq<nat>)
    ensures AsciiBorder(ws)[0] == '+'
    ensures DashRuns(AsciiRuns(ws)) == Some(RunLengths(ws))
    decreases |ws|
  {
    if |ws| == 0 {
      assert AsciiRuns(ws) == "";
    } else {
      AsciiRunsCons(ws);
      DashRunsOfRun(ws[0] + 2, AsciiRuns(ws[1..]), AsciiRuns(ws));
      AsciiBorderRuns(ws[1..]);
    }
  }

  /** The lengths of the `─` runs of a Unicode border between its corners,
      runs separated by `sep`, or None if the text is not of that shape. */
  function BoxRuns(s: string, sep: char): Option<seq<nat>>
    decreases |s|
  {
    var n := LeadingRun(s, '─');
    if n == |s| then Some([n])
    else if s[n] == sep then
      match BoxRuns(s[n + 1..], sep)
      case None => None
      case Some(rest) => Some([n] + rest)
    else None
  }

  lemma UnicodeRunsCons(ws: seq<nat>, sep: char)
    requires |ws| > 1
    ensures UnicodeRuns(ws, sep) == Repeat("─", ws[0] + 2) + ([sep] + UnicodeRuns(ws[1..], sep))
  {
  }

  /** A run of n `─` and a separator in front of a tail adds n in front of
      the runs read from the tail. */
  lemma BoxRunsOfRun(n: nat, sep: char, tail: string, s: string)
    requires sep != '─' && s == Repeat("─", n) + ([sep] + tail)
    ensures BoxRuns(s, sep) ==
      match BoxRuns(tail, sep)
      case None => None
      case Some(rest) => Some([n] + rest)
  {
    LeadingRunOf('─', n, [sep] + tail);
    assert |s| == n + 1 + |tail| && s[n] == sep && s[n + 1..] == tail;
  }

  /** Each `─` run of a Unicode border is its column's width plus two: the
      border, between its two corners, reads back as exactly wᵢ + 2 for
      every column, in order. */
  lemma {:induction false} UnicodeBorderRuns(ws: seq<nat>, left: char, sep: char, right: char)
    requires |ws| >= 1 && sep != '─'
    ensures var b := UnicodeBorder(ws, left, sep, right);
      b[0] == left && b[|b| - 1] == right && b[1..|b| - 1] == UnicodeRuns(ws, sep)
    ensures BoxRuns(UnicodeRuns(ws, sep), sep) == Some(RunLengths(ws))
    decreases |ws|
  {
    var b := UnicodeBorder(ws, left, sep, right);
    assert b[1..|b| - 1] == UnicodeRuns(ws, sep);
    if |ws| == 1 {
      LeadingRunOf('─', ws[0] + 2, "");
      assert Repeat("─", ws[0] + 2) + "" == UnicodeRuns(ws, sep);
      assert |UnicodeRuns(ws, sep)| == ws[0] + 2;
      assert RunLengths(ws) == [ws[0] + 2];
    } else {
      UnicodeRunsCons(ws, sep);
      BoxRunsOfRun(ws[0] + 2, sep, UnicodeRuns(ws[1..], sep), UnicodeRuns(ws, sep));
      UnicodeBorderRuns(ws[1..], left, sep, right);
    }
  }

  // The placeholder

  /** The ASCII, Unicode and Markdown renderers give "(no fields)" exactly
      when there are no field names (a table with fields starts its output
      with a border or a `|`). */
  lemma NoFieldsPlaceholder(t: Table)
    requires Renderable(t)
    ensures RenderASCII(t) == NoFields <==> |t.fields| == 0
    ensures RenderUnicode(t) == NoFields <==> |t.fields| == 0
    ensures RenderMarkdown(t) == NoFields <==> |t.fields| == 0
  {
    if |t.fields| > 0 {
      var a := AsciiLines(t);
      assert a[0][0] == '+';
      JoinLinesFirst(a);
      var u := UnicodeLines(t);
      assert u[0][0] == '┌';
      JoinLinesFirst(u);
      MarkdownJoinedLines(t);
      var md := MarkdownLines(t);
      assert md[0][0] == '|';
      JoinLinesFirst(md);
    }
  }

  lemma JoinLinesFirst(lines: seq<string>)
    requires |lines| >= 1 && |lines[0]| > 0
    ensures |JoinLines(lines)| > 0 && JoinLines(lines)[0] == lines[0][0]
  {
  }

  // Markdown

  lemma {:induction false} MarkdownCellsEnd(texts: seq<string>)
    requires |texts| > 0
    ensures |MarkdownCells(texts)| >= 3
    ensures MarkdownCells(texts)[|MarkdownCells(texts)| - 3..] == " | "
    decreases |texts|
  {
    if |texts| > 1 {
      MarkdownCellsEnd(texts[1..]);
    }
  }

  /** Every Markdown line, the header and separator as well as each row,
      ends in the three characters `| ` preceded by a space, or is `| `
      alone for a row without cells. */
  lemma MarkdownLineEnds(t: Table)
    requires |t.fields| > 0
    ensures forall k :: 0 <= k < |MarkdownLines(t)| ==>
      var line := MarkdownLines(t)[k];
      |line| >= 2 && line[|line| - 2..] == "| "
  {
    var lines := MarkdownLines(t);
    forall k | 0 <= k < |lines|
      ensures |lines[k]| >= 2 && lines[k][|lines[k]| - 2..] == "| "
    {
      if k == 0 {
        MarkdownCellsEnd(t.fields);
      } else if k == 1 {
        RepeatEnd("--- | ", |t.fields|);
      } else {
        var texts := Texts(t.rows[k - 2]);
        if |texts| > 0 {
          MarkdownCellsEnd(texts);
        }
      }
    }
  }

  lemma RepeatEnd(s: string, n: nat)
    requires n > 0
    ensures Repeat(s, n) == Repeat(s, n - 1) + s
    decreases n
  {
    if n > 1 {
      RepeatEnd(s, n - 1);
    }
  }

  /** Trimming trailing newlines removes exactly the one written after the
      last line: the Markdown output is its lines joined by newlines, with
      no newline at the end. */
  lemma MarkdownJoinedLines(t: Table)
    requires |t.fields| > 0
    ensures RenderMarkdown(t) == JoinLines(MarkdownLines(t))
  {
    var lines := MarkdownLines(t);
    var j := JoinLines(lines);
    TerminatedIsJoinedPlusNewline(lines);
    MarkdownLineEnds(t);
    JoinLinesLast(lines);
    assert j[|j| - 1] == ' ';
    assert (j + "\n")[..|j|] == j;
  }

  // Line structure of the formats that use the stored rows

  /** Every field name and every cell text is free of newlines. */
  predicate SingleLineTexts(t: Table)
  {
    && (forall i :: 0 <= i < |t.fields| ==> NoNewline(t.fields[i]))
    && (forall k, i :: 0 <= k < |t.rows| && 0 <= i < |t.rows[k]| ==> NoNewline(Format(t.rows[k][i])))
  }

  lemma NoNewlineAppend(a: string, b: string)
    requires NoNewline(a) && NoNewline(b)
    ensures NoNewline(a + b)
  {
  }

  lemma {:induction false} RepeatSingleLine(s: string, n: nat)
    requires NoNewline(s)
    ensures NoNewline(Repeat(s, n))
    decreases n
  {
    if n > 0 {
      RepeatSingleLine(s, n - 1);
    }
  }

  lemma {:induction false} MarkdownCellsSingleLine(texts: seq<string>)
    requires forall i :: 0 <= i < |texts| ==> NoNewline(texts[i])
    ensures NoNewline(MarkdownCells(texts))
    decreases |texts|
  {
    if |texts| > 0 {
      MarkdownCellsSingleLine(texts[1..]);
    }
  }

  lemma {:induction false} WikiCellsSingleLine(mark: string, texts: seq<string>)
    requires NoNewline(mark)
    requires forall i :: 0 <= i < |texts| ==> NoNewline(texts[i])
    ensures NoNewline(WikiCells(mark, texts))
    decreases |texts|
  {
    if |texts| > 0 {
      WikiCellsSingleLine(mark, texts[1..]);
    }
  }

  /** The Markdown output of a table with fields splits into the header, the
      separator and one line per stored row, whatever the filter, sort and
      alignments. */
  lemma MarkdownLayout(t: Table)
    requires |t.fields| > 0 && SingleLineTexts(t)
    ensures SplitLines(RenderMarkdown(t)) == MarkdownLines(t)
    ensures |SplitLines(RenderMarkdown(t))| == |t.rows| + 2
  {
    var lines := MarkdownLines(t);
    MarkdownJoinedLines(t);
    MarkdownCellsSingleLine(t.fields);
    forall k | 2 <= k < |lines|
      ensures NoNewline(lines[k])
    {
      MarkdownCellsSingleLine(Texts(t.rows[k - 2]));
    }
    RepeatSingleLine("--- | ", |t.fields|);
    SplitJoinLines(lines);
  }

  /** The MediaWiki output splits into the table opener, a line holding `|-`
      followed by the header cells, one `|-` line per stored row, and `|}`. */
  lemma MediaWikiLayout(t: Table)
    requires SingleLineTexts(t)
    ensures SplitLines(RenderMediaWiki(t)) == MediaWikiLines(t)
    ensures |SplitLines(RenderMediaWiki(t))| == |t.rows| + 3
    ensures SplitLines(RenderMediaWiki(t))[1] == "|-" + WikiCells("! ", t.fields)
  {
    var lines := MediaWikiLines(t);
    WikiCellsSingleLine("! ", t.fields);
    forall k | 2 <= k < |lines| - 1
      ensures NoNewline(lines[k])
    {
      WikiCellsSingleLine("| ", Texts(t.rows[k - 2]));
    }
    SplitJoinLines(lines);
  }

  /** Padding adds only spaces, so it keeps text on one line. */
  lemma PadSingleLine(m: Measure, s: string, w: nat, a: Alignment)
    requires NoNewline(s)
    ensures NoNewline(Pad(m, s, w, a))
  {
  }

  lemma {:induction false} BoxedCellsSingleLine(m: Measure, texts: seq<string>, ws: seq<nat>, aligns: seq<Alignment>, bar: char)
    requires |texts| <= |ws| && |texts| <= |aligns| && bar != '\n'
    requires forall i :: 0 <= i < |texts| ==> NoNewline(texts[i])
    ensures NoNewline(BoxedCells(m, texts, ws, aligns, bar))
    decreases |texts|
  {
    if |texts| > 0 {
      PadSingleLine(m, texts[0], ws[0], aligns[0]);
      BoxedCellsSingleLine(m, texts[1..], ws[1..], aligns[1..], bar);
    }
  }

  lemma BoxedRowsSingleLine(m: Measure, rows: seq<Row>, ws: seq<nat>, aligns: seq<Alignment>, bar: char)
    requires RowsFit(rows, |ws|) && |ws| <= |aligns| && bar != '\n'
    requires forall k, i :: 0 <= k < |rows| && 0 <= i < |rows[k]| ==> NoNewline(Format(rows[k][i]))
    ensures forall k :: 0 <= k < |rows| ==> NoNewline(BoxedRows(m, rows, ws, aligns, bar)[k])
  {
    forall k | 0 <= k < |rows|
      ensures NoNewline(BoxedRows(m, rows, ws, aligns, bar)[k])
    {
      BoxedCellsSingleLine(m, Texts(rows[k]), ws, aligns, bar);
    }
  }

  /** The working rows are stored rows, so they inherit single-line texts. */
  lemma WorkingRowsSingleLine(t: Table)
    requires SortSafe(t) && SingleLineTexts(t)
    ensures forall k, i :: 0 <= k < |WorkingRows(t)| && 0 <= i < |WorkingRows(t)[k]| ==> NoNewline(Format(WorkingRows(t)[k][i]))
  {
    var w := WorkingRows(t);
    forall k, i | 0 <= k < |w| && 0 <= i < |w[k]|
      ensures NoNewline(Format(w[k][i]))
    {
      WorkingRowsMembers(t, w[k]);
      var j :| 0 <= j < |t.rows| && t.rows[j] == w[k];
    }
  }

  lemma {:induction false} AsciiRunsSingleLine(ws: seq<nat>)
    ensures NoNewline(AsciiRuns(ws))
    decreases |ws|
  {
    if |ws| > 0 {
      AsciiRunsSingleLine(ws[1..]);
    }
  }

  lemma {:induction false} UnicodeRunsSingleLine(ws: seq<nat>, sep: char)
    requires sep != '\n'
    ensures NoNewline(UnicodeRuns(ws, sep))
    decreases |ws|
  {
    if |ws| > 1 {
      UnicodeRunsSingleLine(ws[1..], sep);
    }
  }

  lemma FrameSingleLine(top: string, header: string, mid: string, rows: seq<string>, bottom: string)
    requires NoNewline(top) && NoNewline(header) && NoNewline(mid) && NoNewline(bottom)
    requires forall k :: 0 <= k < |rows| ==> NoNewline(rows[k])
    ensures var lines := [top, header, mid] + rows + [bottom];
      forall k :: 0 <= k < |lines| ==> NoNewline(lines[k])
  {
  }

  /** No line of the ASCII box holds a newline when no text does. */
  lemma AsciiLinesSingleLine(t: Table)
    requires |t.fields| > 0 && Renderable(t) && SingleLineTexts(t)
    ensures forall k :: 0 <= k < |AsciiLines(t)| ==> NoNewline(AsciiLines(t)[k])
  {
    WorkingRowsFit(t);
    var ws, aligns := BoxWidths(Bytes, t), FieldAligns(t);
    AsciiRunsSingleLine(ws);
    BoxedCellsSingleLine(Bytes, t.fields, ws, aligns, '|');
    WorkingRowsSingleLine(t);
    BoxedRowsSingleLine(Bytes, WorkingRows(t), ws, aligns, '|');
    var cells := BoxedCells(Bytes, t.fields, ws, aligns, '|');
    NoNewlineAppend("+", AsciiRuns(ws));
    NoNewlineAppend("|", cells);
    FrameSingleLine(AsciiBorder(ws), "|" + cells, AsciiBorder(ws), BoxedRows(Bytes, WorkingRows(t), ws, aligns, '|'), AsciiBorder(ws));
  }

  /** The ASCII output of a table with fields and single-line texts splits
      into exactly the border, header, border, one line per working row and
      the closing border. */
  lemma AsciiLayout(t: Table)
    requires |t.fields| > 0 && Renderable(t) && SingleLineTexts(t)
    ensures SplitLines(RenderASCII(t)) == AsciiLines(t)
    ensures |SplitLines(RenderASCII(t))| == |WorkingRows(t)| + 4
  {
    AsciiLinesSingleLine(t);
    SplitJoinLines(AsciiLines(t));
  }

  /** So every line of the ASCII output of a well-formed table with
      single-line texts has the same byte width. */
  lemma AsciiOutputWidths(t: Table)
    requires WellFormed(t) && |t.fields| > 0 && SingleLineTexts(t)
    ensures Renderable(t)
    ensures |SplitLines(RenderASCII(t))| == |WorkingRows(t)| + 4
    ensures forall k :: 0 <= k < |SplitLines(RenderASCII(t))| ==>
      Width(Bytes, SplitLines(RenderASCII(t))[k]) == LineWidth(BoxWidths(Bytes, t))
  {
    WellFormedIsRenderable(t);
    AsciiLayout(t);
    AsciiLineWidths(t);
  }

  lemma BorderSingleLine(ws: seq<nat>, left: char, sep: char, right: char)
    requires left != '\n' && sep != '\n' && right != '\n'
    ensures NoNewline(UnicodeBorder(ws, left, sep, right))
  {
    UnicodeRunsSingleLine(ws, sep);
    NoNewlineAppend([left], UnicodeRuns(ws, sep));
    NoNewlineAppend([left] + UnicodeRuns(ws, sep), [right]);
  }

  lemma UnicodeLinesSingleLine(t: Table)
    requires |t.fields| > 0 && Renderable(t) && SingleLineTexts(t)
    ensures forall k :: 0 <= k < |UnicodeLines(t)| ==> NoNewline(UnicodeLines(t)[k])
  {
    WorkingRowsFit(t);
    var ws, aligns := BoxWidths(Runes, t), FieldAligns(t);
    BoxedCellsSingleLine(Runes, t.fields, ws, aligns, '│');
    WorkingRowsSingleLine(t);
    BoxedRowsSingleLine(Runes, WorkingRows(t), ws, aligns, '│');
    var cells := BoxedCells(Runes, t.fields, ws, aligns, '│');
    NoNewlineAppend("│", cells);
    BorderSingleLine(ws, '┌', '┬', '┐');
    BorderSingleLine(ws, '├', '┼', '┤');
    BorderSingleLine(ws, '└', '┴', '┘');
    FrameSingleLine(UnicodeBorder(ws, '┌', '┬', '┐'), "│" + cells, UnicodeBorder(ws, '├', '┼', '┤'),
      BoxedRows(Runes, WorkingRows(t), ws, aligns, '│'), UnicodeBorder(ws, '└', '┴', '┘'));
  }

  /** The Unicode output splits into exactly its box lines. */
  lemma UnicodeLayout(t: Table)
    requires |t.fields| > 0 && Renderable(t) && SingleLineTexts(t)
    ensures SplitLines(RenderUnicode(t)) == UnicodeLines(t)
    ensures |SplitLines(RenderUnicode(t))| == |WorkingRows(t)| + 4
  {
    UnicodeLinesSingleLine(t);
    SplitJoinLines(UnicodeLines(t));
  }

  /** So every line of the Unicode output of a well-formed table with
      single-line texts has the same width in code points. */
  lemma UnicodeOutputWidths(t: Table)
    requires WellFormed(t) && |t.fields| > 0 && SingleLineTexts(t)
    ensures Renderable(t)
    ensures |SplitLines(RenderUnicode(t))| == |WorkingRows(t)| + 4
    ensures forall k :: 0 <= k < |SplitLines(RenderUnicode(t))| ==>
      Width(Runes, SplitLines(RenderUnicode(t))[k]) == LineWidth(BoxWidths(Runes, t))
  {
    WellFormedIsRenderable(t);
    UnicodeLayout(t);
    UnicodeLineWidths(t);
  }

  // Reading the texts back from a boxed line

  /** The number of characters before the first `bar`. */
  function UntilBar(s: string, bar: char): (n: nat)
    ensures n <= |s|
  {
    if |s| == 0 || s[0] == bar then 0 else 1 + UntilBar(s[1..], bar)
  }

  /** Reads the cells of a boxed line after its leading bar: each piece up to
      the next bar, with the spaces around it trimmed; None when the text
      does not end in a bar. */
  function ReadCells(s: string, bar: char): Option<seq<string>>
    decreases |s|
  {
    if |s| == 0 then Some([])
    else
      var n := UntilBar(s, bar);
      if n < |s| then
        match ReadCells(s[n + 1..], bar)
        case None => None
        case Some(rest) => Some([TrimSpaces(s[..n])] + rest)
      else None
  }

  /** Reads a header or data line of a boxed table. */
  function ReadBoxedLine(line: string, bar: char): Option<seq<string>>
  {
    if |line| > 0 && line[0] == bar then ReadCells(line[1..], bar) else None
  }

  /** A text that survives the box: no bar and no space at either end. */
  predicate BoxSafe(s: string, bar: char)
  {
    bar !in s && (|s| == 0 || (s[0] != ' ' && s[|s| - 1] != ' '))
  }

  /** Every field name and every stored cell text is plain. */
  predicate BoxSafeTexts(t: Table, bar: char)
  {
    && (forall i :: 0 <= i < |t.fields| ==> BoxSafe(t.fields[i], bar))
    && (forall k, i :: 0 <= k < |t.rows| && 0 <= i < |t.rows[k]| ==> BoxSafe(Format(t.rows[k][i]), bar))
  }

  lemma {:induction false} UntilBarOf(piece: string, bar: char, rest: string)
    requires bar !in piece
    ensures UntilBar(piece + [bar] + rest, bar) == |piece|
    decreases |piece|
  {
    if |piece| == 0 {
      assert piece + [bar] + rest == [bar] + rest;
    } else {
      assert (piece + [bar] + rest)[1..] == piece[1..] + [bar] + rest;
      UntilBarOf(piece[1..], bar, rest);
    }
  }

  /** A piece without a bar, then a bar, in front of a tail adds the trimmed
      piece in front of the cells read from the tail. */
  lemma ReadCellsCons(piece: string, bar: char, tail: string, s: string)
    requires bar !in piece && s == piece + [bar] + tail
    ensures ReadCells(s, bar) ==
      match ReadCells(tail, bar)
      case None => None
      case Some(rest) => Some([TrimSpaces(piece)] + rest)
  {
    UntilBarOf(piece, bar, tail);
    assert s[..|piece|] == piece && s[|piece| + 1..] == tail;
  }

  lemma {:induction false} NotInSpaces(c: char, n: nat)
    requires c != ' '
    ensures c !in Spaces(n)
    decreases n
  {
    if n > 0 {
      NotInSpaces(c, n - 1);
    }
  }

  lemma {:induction false} SpacesSnoc(n: nat)
    ensures Spaces(n) + " " == Spaces(n + 1)
    decreases n
  {
    if n > 0 {
      SpacesSnoc(n - 1);
      assert Spaces(n) + " " == " " + (Spaces(n - 1) + " ");
    }
  }

  /** A cell between its two margin spaces trims back to its text. */
  lemma TrimFramedCell(s: string, l: nat, r: nat)
    requires |s| == 0 || (s[0] != ' ' && s[|s| - 1] != ' ')
    ensures TrimSpaces(" " + (Spaces(l) + s + Spaces(r)) + " ") == s
  {
    SpacesSnoc(r);
    assert " " + (Spaces(l) + s + Spaces(r)) + " " == Spaces(l + 1) + s + Spaces(r + 1);
    TrimSurrounded(s, l + 1, r + 1);
  }

  /** The padded cell with its margins: no bar is added, and trimming gives
      the text back. */
  lemma PaddedCellReadBack(m: Measure, s: string, w: nat, a: Alignment, bar: char)
    requires BoxSafe(s, bar) && bar != ' '
    ensures bar !in " " + Pad(m, s, w, a) + " "
    ensures TrimSpaces(" " + Pad(m, s, w, a) + " ") == s
  {
    var p := Pad(m, s, w, a);
    if Width(m, s) >= w {
      assert p == Spaces(0) + s + Spaces(0);
      TrimFramedCell(s, 0, 0);
    } else {
      var pad := w - Width(m, s);
      NotInSpaces(bar, pad);
      NotInSpaces(bar, pad / 2);
      NotInSpaces(bar, pad - pad / 2);
      match a
      case Left =>
        assert p == Spaces(0) + s + Spaces(pad);
        TrimFramedCell(s, 0, pad);
      case Right =>
        assert p == Spaces(pad) + s + Spaces(0);
        TrimFramedCell(s, pad, 0);
      case Center =>
        TrimFramedCell(s, pad / 2, pad - pad / 2);
    }
  }

  /** The cells of a boxed line read back as exactly the plain texts they
      were made from, whatever the widths and alignments. */
  lemma {:induction false} BoxedCellsReadBack(m: Measure, texts: seq<string>, ws: seq<nat>, aligns: seq<Alignment>, bar: char)
    requires |texts| <= |ws| && |texts| <= |aligns| && bar != ' '
    requires forall i :: 0 <= i < |texts| ==> BoxSafe(texts[i], bar)
    ensures ReadCells(BoxedCells(m, texts, ws, aligns, bar), bar) == Some(texts)
    decreases |texts|
  {
    if |texts| > 0 {
      var p := Pad(m, texts[0], ws[0], aligns[0]);
      var tail := BoxedCells(m, texts[1..], ws[1..], aligns[1..], bar);
      assert BoxedCells(m, texts, ws, aligns, bar) == " " + p + " " + [bar] + tail;
      PaddedCellReadBack(m, texts[0], ws[0], aligns[0], bar);
      ReadCellsCons(" " + p + " ", bar, tail, BoxedCells(m, texts, ws, aligns, bar));
      BoxedCellsReadBack(m, texts[1..], ws[1..], aligns[1..], bar);
      assert [texts[0]] + texts[1..] == texts;
    }
  }

  lemma BoxedLineReadBack(m: Measure, texts: seq<string>, ws: seq<nat>, aligns: seq<Alignment>, bar: char)
    requires |texts| <= |ws| && |texts| <= |aligns| && bar != ' '
    requires forall i :: 0 <= i < |texts| ==> BoxSafe(texts[i], bar)
    ensures ReadBoxedLine([bar] + BoxedCells(m, texts, ws, aligns, bar), bar) == Some(texts)
  {
    BoxedCellsReadBack(m, texts, ws, aligns, bar);
    assert ([bar] + BoxedCells(m, texts, ws, aligns, bar))[1..] == BoxedCells(m, texts, ws, aligns, bar);
  }

  /** Working rows have box-safe texts when the stored rows do. */
  lemma WorkingRowsBoxSafe(t: Table, bar: char)
    requires SortSafe(t) && BoxSafeTexts(t, bar)
    ensures forall k, i :: 0 <= k < |WorkingRows(t)| && 0 <= i < |WorkingRows(t)[k]| ==>
      BoxSafe(Texts(WorkingRows(t)[k])[i], bar)
  {
    var w := WorkingRows(t);
    forall k, i | 0 <= k < |w| && 0 <= i < |w[k]|
      ensures BoxSafe(Texts(w[k])[i], bar)
    {
      WorkingRowsMembers(t, w[k]);
      var j :| 0 <= j < |t.rows| && t.rows[j] == w[k];
    }
  }

  /** Every data line reads back as the texts of its row. */
  lemma BoxedRowsReadBack(m: Measure, rows: seq<Row>, ws: seq<nat>, aligns: seq<Alignment>, bar: char)
    requires RowsFit(rows, |ws|) && |ws| <= |aligns| && bar != ' '
    requires forall k, i :: 0 <= k < |rows| && 0 <= i < |rows[k]| ==> BoxSafe(Texts(rows[k])[i], bar)
    ensures forall k :: 0 <= k < |rows| ==> ReadBoxedLine(BoxedRows(m, rows, ws, aligns, bar)[k], bar) == Some(Texts(rows[k]))
  {
    forall k | 0 <= k < |rows|
      ensures ReadBoxedLine(BoxedRows(m, rows, ws, aligns, bar)[k], bar) == Some(Texts(rows[k]))
    {
      BoxedLineReadBack(m, Texts(rows[k]), ws, aligns, bar);
    }
  }

  /** Where the header and the data lines sit among the framed lines. */
  lemma FramePositions(lines: seq<string>, top: string, header: string, mid: string, rows: seq<string>, bottom: string)
    requires lines == [top, header, mid] + rows + [bottom]
    ensures |lines| == |rows| + 4 && lines[1] == header
    ensures forall k :: 0 <= k < |rows| ==> lines[k + 3] == rows[k]
  {
  }

  /** Reading the ASCII output back: when no field name or cell text holds a
      newline or a `|` or starts or ends with a space, the header line reads
      back as the field names and the line of each working row as the texts
      of that row. */
  lemma AsciiReadBack(t: Table)
    requires |t.fields| > 0 && Renderable(t) && SingleLineTexts(t) && BoxSafeTexts(t, '|')
    ensures var lines := SplitLines(RenderASCII(t));
      && |lines| == |WorkingRows(t)| + 4
      && ReadBoxedLine(lines[1], '|') == Some(t.fields)
      && forall k :: 0 <= k < |WorkingRows(t)| ==> ReadBoxedLine(lines[k + 3], '|') == Some(Texts(WorkingRows(t)[k]))
  {
    AsciiLayout(t);
    WorkingRowsFit(t);
    var ws, aligns := BoxWidths(Bytes, t), FieldAligns(t);
    var w := WorkingRows(t);
    var header := "|" + BoxedCells(Bytes, t.fields, ws, aligns, '|');
    var rows := BoxedRows(Bytes, w, ws, aligns, '|');
    FramePositions(AsciiLines(t), AsciiBorder(ws), header, AsciiBorder(ws), rows, AsciiBorder(ws));
    BoxedLineReadBack(Bytes, t.fields, ws, aligns, '|');
    WorkingRowsBoxSafe(t, '|');
    BoxedRowsReadBack(Bytes, w, ws, aligns, '|');
  }

  /** The same for the Unicode output, whose bar is `│`. */
  lemma UnicodeReadBack(t: Table)
    requires |t.fields| > 0 && Renderable(t) && SingleLineTexts(t) && BoxSafeTexts(t, '│')
    ensures var lines := SplitLines(RenderUnicode(t));
      && |lines| == |WorkingRows(t)| + 4
      && ReadBoxedLine(lines[1], '│') == Some(t.fields)
      && forall k :: 0 <= k < |WorkingRows(t)| ==> ReadBoxedLine(lines[k + 3], '│') == Some(Texts(WorkingRows(t)[k]))
  {
    UnicodeLayout(t);
    WorkingRowsFit(t);
    var ws, aligns := BoxWidths(Runes, t), FieldAligns(t);
    var w := WorkingRows(t);
    var header := "│" + BoxedCells(Runes, t.fields, ws, aligns, '│');
    var rows := BoxedRows(Runes, w, ws, aligns, '│');
    FramePositions(UnicodeLines(t), UnicodeBorder(ws, '┌', '┬', '┐'), header, UnicodeBorder(ws, '├', '┼', '┤'),
      rows, UnicodeBorder(ws, '└', '┴', '┘'));
    BoxedLineReadBack(Runes, t.fields, ws, aligns, '│');
    WorkingRowsBoxSafe(t, '│');
    BoxedRowsReadBack(Runes, w, ws, aligns, '│');
  }

  /** Without the restriction the texts are not recovered: cells are not
      escaped, so a `|` inside a cell reads back as two cells. */
  lemma BarInCellSplits(texts: seq<string>, ws: seq<nat>, aligns: seq<Alignment>)
    requires texts == ["a|b"] && ws == [3] && aligns == [Left]
    ensures ReadBoxedLine("|" + BoxedCells(Bytes, texts, ws, aligns, '|'), '|') == Some(["a", "b"])
  {
    var cells := BoxedCells(Bytes, texts, ws, aligns, '|');
    WidthAscii(Bytes, texts[0]);
    assert Pad(Bytes, texts[0], ws[0], aligns[0]) == texts[0];
    assert BoxedCells(Bytes, texts[1..], ws[1..], aligns[1..], '|') == "";
    var p1, p2, none := " a", "b ", "";
    var tail := p2 + ['|'] + none;
    assert cells == p1 + ['|'] + tail;
    ReadCellsCons(p1, '|', tail, cells);
    ReadCellsCons(p2, '|', none, tail);
    TrimEdgeSpace(p1, p2);
    assert ReadCells(none, '|') == Some([]);
    assert ReadCells(tail, '|') == Some([TrimSpaces(p2)] + []);
    assert ReadCells(cells, '|') == Some([TrimSpaces(p1)] + ([TrimSpaces(p2)] + []));
    assert [TrimSpaces(p1)] + ([TrimSpaces(p2)] + []) == ["a", "b"];
    var line := "|" + cells;
    assert |line| > 0 && line[0] == '|' && line[1..] == cells;
    assert ReadBoxedLine(line, '|') == ReadCells(cells, '|');
  }

  lemma TrimEdgeSpace(p1: string, p2: string)
    requires p1 == " a" && p2 == "b "
    ensures TrimSpaces(p1) == "a" && TrimSpaces(p2) == "b"
  {
    assert TrimTrailingSpaces(p1) == p1;
    assert TrimLeadingSpaces(p1) == TrimLeadingSpaces(p1[1..]) && p1[1..] == "a";
    assert TrimTrailingSpaces(p2) == TrimTrailingSpaces(p2[..1]) && p2[..1] == "b";
    assert TrimTrailingSpaces("b") == "b" && TrimLeadingSpaces("b") == "b";
  }

  /** And the margin spaces swallow a space at the edge of a text. */
  lemma EdgeSpaceTrimmed(texts: seq<string>, ws: seq<nat>, aligns: seq<Alignment>)
    requires texts == [" x"] && ws == [2] && aligns == [Left]
    ensures ReadBoxedLine("|" + BoxedCells(Bytes, texts, ws, aligns, '|'), '|') == Some(["x"])
  {
    var cells := BoxedCells(Bytes, texts, ws, aligns, '|');
    WidthAscii(Bytes, texts[0]);
    assert Pad(Bytes, texts[0], ws[0], aligns[0]) == texts[0];
    assert BoxedCells(Bytes, texts[1..], ws[1..], aligns[1..], '|') == "";
    var p, none := "  x ", "";
    assert cells == p + ['|'] + none;
    ReadCellsCons(p, '|', none, cells);
    TrimDoubleSpace(p);
    assert ReadCells(none, '|') == Some([]);
    assert ReadCells(cells, '|') == Some([TrimSpaces(p)] + []);
    assert [TrimSpaces(p)] + [] == ["x"];
    var line := "|" + cells;
    assert |line| > 0 && line[0] == '|' && line[1..] == cells;
    assert ReadBoxedLine(line, '|') == ReadCells(cells, '|');
  }

  lemma TrimDoubleSpace(p: string)
    requires p == "  x "
    ensures TrimSpaces(p) == "x"
  {
    assert TrimTrailingSpaces(p) == TrimTrailingSpaces(p[..3]) && p[..3] == "  x";
    assert TrimTrailingSpaces("  x") == "  x";
    assert TrimLeadingSpaces("  x") == TrimLeadingSpaces(" x") == TrimLeadingSpaces("x");
    assert "  x"[1..] == " x" && " x"[1..] == "x";
  }

  /** Replacing a character by single-line text keeps text on one line. */
  lemma {:induction false} ReplaceCharSingleLine(s: string, c: char, rep: string)
    requires NoNewline(s) && NoNewline(rep)
    ensures NoNewline(ReplaceChar(s, c, rep))
    decreases |s|
  {
    if |s| > 0 {
      ReplaceCharSingleLine(s[1..], c, rep);
      NoNewlineAppend(if s[0] == c then rep else [s[0]], ReplaceChar(s[1..], c, rep));
    }
  }

  lemma {:induction false} JoinWithSingleLine(parts: seq<string>, sep: string)
    requires NoNewline(sep) && forall i :: 0 <= i < |parts| ==> NoNewline(parts[i])
    ensures NoNewline(JoinWith(parts, sep))
    decreases |parts|
  {
    if |parts| > 1 {
      JoinWithSingleLine(parts[1..], sep);
      NoNewlineAppend(parts[0], sep);
      NoNewlineAppend(parts[0] + sep, JoinWith(parts[1..], sep));
    }
  }

  lemma LatexEscapeSingleLine(s: string)
    requires NoNewline(s)
    ensures NoNewline(LatexEscapeChained(s))
  {
    var s1 := ReplaceChar(s, '\\', "\\textbackslash{}");
    ReplaceCharSingleLine(s, '\\', "\\textbackslash{}");
    var s2 := ReplaceChar(s1, '_', "\\_");
    ReplaceCharSingleLine(s1, '_', "\\_");
    var s3 := ReplaceChar(s2, '&', "\\&");
    ReplaceCharSingleLine(s2, '&', "\\&");
    var s4 := ReplaceChar(s3, '%', "\\%");
    ReplaceCharSingleLine(s3, '%', "\\%");
    var s5 := ReplaceChar(s4, '$', "\\$");
    ReplaceCharSingleLine(s4, '$', "\\$");
    var s6 := ReplaceChar(s5, '#', "\\#");
    ReplaceCharSingleLine(s5, '#', "\\#");
    var s7 := ReplaceChar(s6, '{', "\\{");
    ReplaceCharSingleLine(s6, '{', "\\{");
    var s8 := ReplaceChar(s7, '}', "\\}");
    ReplaceCharSingleLine(s7, '}', "\\}");
    var s9 := ReplaceChar(s8, '~', "\\textasciitilde{}");
    ReplaceCharSingleLine(s8, '~', "\\textasciitilde{}");
    ReplaceCharSingleLine(s9, '^', "\\textasciicircum{}");
  }

  /** A LaTeX row: the escaped texts joined by ` & `, then the terminator. */
  lemma LatexRowSingleLine(texts: seq<string>)
    requires forall i :: 0 <= i < |texts| ==> NoNewline(texts[i])
    ensures NoNewline(JoinWith(LatexEscapeAll(texts), " & ") + LatexRowEnd)
  {
    var escaped := LatexEscapeAll(texts);
    forall i | 0 <= i < |texts|
      ensures NoNewline(escaped[i])
    {
      LatexEscapeSingleLine(texts[i]);
    }
    JoinWithSingleLine(escaped, " & ");
    NoNewlineAppend(JoinWith(escaped, " & "), LatexRowEnd);
  }

  lemma LatexOpenerSingleLine(n: nat)
    ensures NoNewline("\\begin{tabular}{|" + Repeat("l|", n) + "}")
  {
    RepeatSingleLine("l|", n);
    NoNewlineAppend("\\begin{tabular}{|", Repeat("l|", n));
    NoNewlineAppend("\\begin{tabular}{|" + Repeat("l|", n), "}");
  }

  lemma LatexLinesSingleLine(t: Table)
    requires SingleLineTexts(t)
    ensures forall k :: 0 <= k < |LatexLines(t)| ==> NoNewline(LatexLines(t)[k])
  {
    var rows := seq(|t.rows|, k requires 0 <= k < |t.rows| => JoinWith(LatexEscapeAll(Texts(t.rows[k])), " & ") + LatexRowEnd);
    forall k | 0 <= k < |rows|
      ensures NoNewline(rows[k])
    {
      LatexRowSingleLine(Texts(t.rows[k]));
    }
    LatexOpenerSingleLine(|t.fields|);
    LatexRowSingleLine(t.fields);
    FrameSingleLine("\\begin{tabular}{|" + Repeat("l|", |t.fields|) + "}", "\\hline",
      JoinWith(LatexEscapeAll(t.fields), " & ") + LatexRowEnd, rows, "\\end{tabular}");
  }

  /** The LaTeX output of a table with single-line texts splits into exactly
      the tabular opener, `\hline`, the header row, one row per stored row and
      the closer; every row line ends in the terminator. */
  lemma LatexLayout(t: Table)
    requires SingleLineTexts(t)
    ensures SplitLines(RenderLaTeX(t)) == LatexLines(t)
    ensures |SplitLines(RenderLaTeX(t))| == |t.rows| + 4
    ensures forall k :: 2 <= k < |SplitLines(RenderLaTeX(t))| - 1 ==>
      var line := SplitLines(RenderLaTeX(t))[k];
      |line| >= 9 && line[|line| - 9..] == " \\ \\hline"
  {
    LatexLinesSingleLine(t);
    SplitJoinLines(LatexLines(t));
    LatexRowsEnd(t);
  }

  lemma HtmlEscapeSingleLine(s: string)
    requires NoNewline(s)
    ensures NoNewline(HtmlEscapeChained(s))
  {
    var s1 := ReplaceChar(s, '&', "&amp;");
    ReplaceCharSingleLine(s, '&', "&amp;");
    var s2 := ReplaceChar(s1, '<', "&lt;");
    ReplaceCharSingleLine(s1, '<', "&lt;");
    var s3 := ReplaceChar(s2, '>', "&gt;");
    ReplaceCharSingleLine(s2, '>', "&gt;");
    ReplaceCharSingleLine(s3, '"', "&quot;");
  }

  lemma {:induction false} HtmlCellsSingleLine(tag: string, texts: seq<string>)
    requires NoNewline(tag) && forall i :: 0 <= i < |texts| ==> NoNewline(texts[i])
    ensures NoNewline(HtmlCells(tag, texts))
    decreases |texts|
  {
    if |texts| > 0 {
      HtmlEscapeSingleLine(texts[0]);
      HtmlCellsSingleLine(tag, texts[1..]);
      var open, close := "<" + tag + ">", "</" + tag + ">";
      NoNewlineAppend("<", tag);
      NoNewlineAppend("<" + tag, ">");
      NoNewlineAppend("</", tag);
      NoNewlineAppend("</" + tag, ">");
      NoNewlineAppend(open, HtmlEscapeChained(texts[0]));
      NoNewlineAppend(open + HtmlEscapeChained(texts[0]), close);
      NoNewlineAppend(open + HtmlEscapeChained(texts[0]) + close, HtmlCells(tag, texts[1..]));
    }
  }

  /** The HTML output of a table with single-line texts splits into exactly
      the `<table>` opener, the header row, one `<tr>` line per stored row and
      `</table>`. */
  lemma HtmlLayout(t: Table)
    requires SingleLineTexts(t)
    ensures SplitLines(RenderHTML(t)) == HtmlLines(t)
    ensures |SplitLines(RenderHTML(t))| == |t.rows| + 3
  {
    var lines := HtmlLines(t);
    HtmlCellsSingleLine("th", t.fields);
    NoNewlineAppend("<tr>", HtmlCells("th", t.fields));
    NoNewlineAppend("<tr>" + HtmlCells("th", t.fields), "</tr>");
    forall k | 2 <= k < |lines| - 1
      ensures NoNewline(lines[k])
    {
      var cells := HtmlCells("td", Texts(t.rows[k - 2]));
      HtmlCellsSingleLine("td", Texts(t.rows[k - 2]));
      NoNewlineAppend("<tr>", cells);
      NoNewlineAppend("<tr>" + cells, "</tr>");
    }
    SplitJoinLines(lines);
  }

  // HTML escaping

  lemma HtmlChainedAppend(a: string, b: string)
    ensures HtmlEscapeChained(a + b) == HtmlEscapeChained(a) + HtmlEscapeChained(b)
  {
    var a1, b1 := ReplaceChar(a, '&', "&amp;"), ReplaceChar(b, '&', "&amp;");
    var a2, b2 := ReplaceChar(a1, '<', "&lt;"), ReplaceChar(b1, '<', "&lt;");
    var a3, b3 := ReplaceChar(a2, '>', "&gt;"), ReplaceChar(b2, '>', "&gt;");
    ReplaceCharAppend(a, b, '&', "&amp;");
    ReplaceCharAppend(a1, b1, '<', "&lt;");
    ReplaceCharAppend(a2, b2, '>', "&gt;");
    ReplaceCharAppend(a3, b3, '"', "&quot;");
  }

  /** One character through the four replacements: the one that matches it
      writes its entity, which no later pattern occurs in. */
  lemma HtmlChainedChar(c: char)
    ensures HtmlEscapeChained([c]) == HtmlEscapeChar(c)
  {
    ReplaceCharSingle(c, '&', "&amp;");
    if c == '&' {
      HtmlEntityPasses("&amp;");
    } else {
      ReplaceCharSingle(c, '<', "&lt;");
      if c == '<' {
        HtmlEntityPasses("&lt;");
      } else {
        ReplaceCharSingle(c, '>', "&gt;");
        if c == '>' {
          HtmlEntityPasses("&gt;");
        } else {
          ReplaceCharSingle(c, '"', "&quot;");
        }
      }
    }
  }

  /** An entity holds none of the patterns after `&`, so the rest of the
      chain leaves it alone. */
  lemma HtmlEntityPasses(e: string)
    requires forall i :: 0 <= i < |e| ==> e[i] == '&' || e[i] == ';' || 'a' <= e[i] <= 'z'
    ensures ReplaceChar(e, '<', "&lt;") == e
    ensures ReplaceChar(e, '>', "&gt;") == e
    ensures ReplaceChar(e, '"', "&quot;") == e
  {
    assert '<' !in e && '>' !in e && '"' !in e;
    ReplaceCharAbsent(e, '<', "&lt;");
    ReplaceCharAbsent(e, '>', "&gt;");
    ReplaceCharAbsent(e, '"', "&quot;");
  }

  /** The chained `ReplaceAll` escape inside `RenderHTML` equals the
      single-pass `htmlEscape`: `&` goes first, so the `&` of the entities
      written later is never escaped again. */
  lemma {:induction false} HtmlEscapesAgree(s: string)
    ensures HtmlEscapeChained(s) == HtmlEscape(s)
    decreases |s|
  {
    if |s| == 0 {
      ReplaceCharAbsent(s, '&', "&amp;");
      ReplaceCharAbsent(s, '<', "&lt;");
      ReplaceCharAbsent(s, '>', "&gt;");
      ReplaceCharAbsent(s, '"', "&quot;");
    } else {
      assert s == [s[0]] + s[1..];
      HtmlChainedAppend([s[0]], s[1..]);
      HtmlChainedChar(s[0]);
      HtmlEscapesAgree(s[1..]);
    }
  }

  /** No `<`, `>` or `"` survives the HTML escape. */
  lemma {:induction false} HtmlEscapeRemovesSpecials(s: string)
    ensures forall i :: 0 <= i < |HtmlEscape(s)| ==>
      HtmlEscape(s)[i] != '<' && HtmlEscape(s)[i] != '>' && HtmlEscape(s)[i] != '"'
    decreases |s|
  {
    if |s| > 0 {
      HtmlEscapeRemovesSpecials(s[1..]);
      var h := HtmlEscapeChar(s[0]);
      assert HtmlEscape(s) == h + HtmlEscape(s[1..]);
      assert forall i :: 0 <= i < |h| ==> h[i] != '<' && h[i] != '>' && h[i] != '"';
    }
  }

  // LaTeX escaping

  /** What the chained escape of `RenderLaTeX` does to one character: the
      `latexEscape` table, except that a backslash comes out with its braces
      escaped. */
  function LatexChainChar(c: char): string
  {
    if c == '\\' then "\\textbackslash\\{\\}" else LatexEscapeChar(c)
  }

  lemma LatexChainedAppend(a: string, b: string)
    ensures LatexEscapeChained(a + b) == LatexEscapeChained(a) + LatexEscapeChained(b)
  {
    LatexFirstStepsAppend(a, b);
    LatexLastStepsAppend(LatexFirstSteps(a), LatexFirstSteps(b));
  }

  lemma LatexFirstStepsAppend(a: string, b: string)
    ensures LatexFirstSteps(a + b) == LatexFirstSteps(a) + LatexFirstSteps(b)
  {
    var a1, b1 := ReplaceChar(a, '\\', "\\textbackslash{}"), ReplaceChar(b, '\\', "\\textbackslash{}");
    var a2, b2 := ReplaceChar(a1, '_', "\\_"), ReplaceChar(b1, '_', "\\_");
    var a3, b3 := ReplaceChar(a2, '&', "\\&"), ReplaceChar(b2, '&', "\\&");
    var a4, b4 := ReplaceChar(a3, '%', "\\%"), ReplaceChar(b3, '%', "\\%");
    ReplaceCharAppend(a, b, '\\', "\\textbackslash{}");
    ReplaceCharAppend(a1, b1, '_', "\\_");
    ReplaceCharAppend(a2, b2, '&', "\\&");
    ReplaceCharAppend(a3, b3, '%', "\\%");
    ReplaceCharAppend(a4, b4, '$', "\\$");
  }

  lemma LatexLastStepsAppend(a: string, b: string)
    ensures LatexLastSteps(a + b) == LatexLastSteps(a) + LatexLastSteps(b)
  {
    var a6, b6 := ReplaceChar(a, '#', "\\#"), ReplaceChar(b, '#', "\\#");
    var a7, b7 := ReplaceChar(a6, '{', "\\{"), ReplaceChar(b6, '{', "\\{");
    var a8, b8 := ReplaceChar(a7, '}', "\\}"), ReplaceChar(b7, '}', "\\}");
    var a9, b9 := ReplaceChar(a8, '~', "\\textasciitilde{}"), ReplaceChar(b8, '~', "\\textasciitilde{}");
    ReplaceCharAppend(a, b, '#', "\\#");
    ReplaceCharAppend(a6, b6, '{', "\\{");
    ReplaceCharAppend(a7, b7, '}', "\\}");
    ReplaceCharAppend(a8, b8, '~', "\\textasciitilde{}");
    ReplaceCharAppend(a9, b9, '^', "\\textasciicircum{}");
  }

  /** One step whose replacement is a backslash before the pattern, applied
      to a character or to an already escaped character: the matching
      character gains its backslash, anything else is kept. */
  lemma BackslashStep(x: char, s: string, p: char)
    requires s == [x] || (s == ['\\', x] && x != p)
    requires p != '\\'
    ensures ReplaceChar(s, p, ['\\', p]) == if s == [x] && x == p then ['\\', x] else s
  {
    if s == [x] {
      ReplaceCharSingle(x, p, ['\\', p]);
    } else {
      ReplaceCharAbsent(s, p, ['\\', p]);
    }
  }

  /** Text without the patterns of the first half, after the backslash
      step, passes the rest of it unchanged. */
  lemma LatexFirstTailKeep(s: string)
    requires '_' !in s && '&' !in s && '%' !in s && '$' !in s
    ensures ReplaceChar(ReplaceChar(ReplaceChar(ReplaceChar(s, '_', "\\_"), '&', "\\&"), '%', "\\%"), '$', "\\$") == s
  {
    ReplaceCharAbsent(s, '_', "\\_");
    ReplaceCharAbsent(s, '&', "\\&");
    ReplaceCharAbsent(s, '%', "\\%");
    ReplaceCharAbsent(s, '$', "\\$");
  }

  /** Text without the patterns of the last half passes it unchanged. */
  lemma LatexLastStepsKeep(s: string)
    requires '#' !in s && '{' !in s && '}' !in s && '~' !in s && '^' !in s
    ensures LatexLastSteps(s) == s
  {
    ReplaceCharAbsent(s, '#', "\\#");
    ReplaceCharAbsent(s, '{', "\\{");
    ReplaceCharAbsent(s, '}', "\\}");
    ReplaceCharAbsent(s, '~', "\\textasciitilde{}");
    ReplaceCharAbsent(s, '^', "\\textasciicircum{}");
  }

  lemma LatexFirstBackslash(c: char)
    requires c == '\\'
    ensures LatexFirstSteps([c]) == "\\textbackslash{}"
  {
    var s1 := ReplaceChar([c], '\\', "\\textbackslash{}");
    ReplaceCharSingle(c, '\\', "\\textbackslash{}");
    LatexFirstTailKeep(s1);
  }

  lemma LatexFirstOther(c: char)
    requires c != '\\'
    ensures c in "_&%$" ==> LatexFirstSteps([c]) == ['\\', c]
    ensures c !in "_&%$" ==> LatexFirstSteps([c]) == [c]
  {
    var s1 := ReplaceChar([c], '\\', "\\textbackslash{}");
    ReplaceCharSingle(c, '\\', "\\textbackslash{}");
    var s2 := ReplaceChar(s1, '_', "\\_");
    var s3 := ReplaceChar(s2, '&', "\\&");
    var s4 := ReplaceChar(s3, '%', "\\%");
    BackslashStep(c, s1, '_');
    BackslashStep(c, s2, '&');
    BackslashStep(c, s3, '%');
    BackslashStep(c, s4, '$');
  }

  lemma LatexLastStepsChar(c: char)
    ensures c in "#{}" ==> LatexLastSteps([c]) == ['\\', c]
    ensures c == '~' ==> LatexLastSteps([c]) == "\\textasciitilde{}"
    ensures c == '^' ==> LatexLastSteps([c]) == "\\textasciicircum{}"
    ensures c !in "#{}~^" ==> LatexLastSteps([c]) == [c]
  {
    if c in "#{}" {
      LatexLastBrace(c);
    } else if c == '~' {
      LatexLastTilde(c);
    } else if c == '^' {
      LatexLastCircumflex(c);
    } else {
      LatexLastStepsKeep([c]);
    }
  }

  lemma LatexLastBrace(c: char)
    requires c in "#{}"
    ensures LatexLastSteps([c]) == ['\\', c]
  {
    var s6 := ReplaceChar([c], '#', "\\#");
    var s7 := ReplaceChar(s6, '{', "\\{");
    var s8 := ReplaceChar(s7, '}', "\\}");
    BackslashStep(c, [c], '#');
    BackslashStep(c, s6, '{');
    BackslashStep(c, s7, '}');
    ReplaceCharAbsent(s8, '~', "\\textasciitilde{}");
    ReplaceCharAbsent(s8, '^', "\\textasciicircum{}");
  }

  lemma LatexLastTilde(c: char)
    requires c == '~'
    ensures LatexLastSteps([c]) == "\\textasciitilde{}"
  {
    var s6 := ReplaceChar([c], '#', "\\#");
    var s7 := ReplaceChar(s6, '{', "\\{");
    var s8 := ReplaceChar(s7, '}', "\\}");
    var s9 := ReplaceChar(s8, '~', "\\textasciitilde{}");
    ReplaceCharSingle(c, '#', "\\#");
    ReplaceCharSingle(c, '{', "\\{");
    ReplaceCharSingle(c, '}', "\\}");
    ReplaceCharSingle(c, '~', "\\textasciitilde{}");
    ReplaceCharAbsent(s9, '^', "\\textasciicircum{}");
  }

  lemma LatexLastCircumflex(c: char)
    requires c == '^'
    ensures LatexLastSteps([c]) == "\\textasciicircum{}"
  {
    ReplaceCharSingle(c, '#', "\\#");
    ReplaceCharSingle(c, '{', "\\{");
    ReplaceCharSingle(c, '}', "\\}");
    ReplaceCharSingle(c, '~', "\\textasciitilde{}");
    ReplaceCharSingle(c, '^', "\\textasciicircum{}");
  }

  lemma BackslashWordChars(word: string)
    requires word == "\\textbackslash"
    ensures '#' !in word && '{' !in word && '}' !in word && '~' !in word && '^' !in word
  {
    assert forall i :: 0 <= i < |word| ==> word[i] == '\\' || 'a' <= word[i] <= 'z';
  }

  /** The last half escapes a trailing `{}` and keeps a plain word before it. */
  lemma LatexLastWordThenBrace(word: string, c: char)
    requires '#' !in word && '{' !in word && '}' !in word && '~' !in word && '^' !in word
    requires c in "#{}"
    ensures LatexLastSteps(word + [c]) == word + ['\\', c]
  {
    LatexLastStepsAppend(word, [c]);
    LatexLastStepsKeep(word);
    LatexLastBrace(c);
  }

  lemma LatexLastBracedWord(word: string, open: char, close: char)
    requires '#' !in word && '{' !in word && '}' !in word && '~' !in word && '^' !in word
    requires open == '{' && close == '}'
    ensures LatexLastSteps(word + [open, close]) == word + ['\\', open, '\\', close]
  {
    var a := word + [open];
    assert word + [open, close] == a + [close];
    LatexLastWordThenBrace(word, open);
    LatexLastStepsAppend(a, [close]);
    LatexLastBrace(close);
    assert word + ['\\', open] + ['\\', close] == word + ['\\', open, '\\', close];
  }

  /** The backslash is replaced first; the braces of its replacement are
      then escaped by the `{` and `}` steps of the chain, which the
      single-pass `latexEscape` does not do. */
  lemma LatexChainBackslash(c: char, word: string, open: char, close: char)
    requires c == '\\' && word == "\\textbackslash" && open == '{' && close == '}'
    ensures LatexEscapeChained([c]) == word + ['\\', open, '\\', close]
  {
    LatexFirstBackslash(c);
    assert LatexFirstSteps([c]) == word + [open, close];
    BackslashWordChars(word);
    LatexLastBracedWord(word, open, close);
  }

  lemma LatexChainedChar(c: char)
    ensures LatexEscapeChained([c]) == LatexChainChar(c)
  {
    if c == '\\' {
      LatexChainBackslash(c, "\\textbackslash", '{', '}');
    } else if c in "_&%$" {
      LatexChainedFirstHalf(c);
      assert LatexEscapeChar(c) == ['\\', c];
    } else {
      LatexChainedLastHalf(c);
      LatexLastStepsChar(c);
      if c in "#{}" {
        assert LatexEscapeChar(c) == ['\\', c];
      }
    }
  }

  lemma LatexChainedFirstHalf(c: char)
    requires c in "_&%$"
    ensures LatexEscapeChained([c]) == ['\\', c]
  {
    LatexFirstOther(c);
    LatexLastStepsKeep(['\\', c]);
  }

  lemma LatexChainedLastHalf(c: char)
    requires c != '\\' && c !in "_&%$"
    ensures LatexEscapeChained([c]) == LatexLastSteps([c])
  {
    LatexFirstOther(c);
  }

  /** The chained LaTeX escape, one character at a time. */
  lemma {:induction false} LatexChainedPerChar(s: string)
    ensures LatexEscapeChained(s) == ConcatMap(LatexChainChar, s)
    decreases |s|
  {
    if |s| == 0 {
      LatexFirstTailKeep(ReplaceChar(s, '\\', "\\textbackslash{}"));
      LatexLastStepsKeep(s);
    } else {
      assert s == [s[0]] + s[1..];
      LatexChainedAppend([s[0]], s[1..]);
      LatexChainedChar(s[0]);
      LatexChainedPerChar(s[1..]);
    }
  }

  function CountChar(s: string, c: char): nat
  {
    if |s| == 0 then 0 else (if s[0] == c then 1 else 0) + CountChar(s[1..], c)
  }

  lemma {:induction false} LatexEscapeLengths(s: string)
    ensures |ConcatMap(LatexChainChar, s)| == |ConcatMap(LatexEscapeChar, s)| + 2 * CountChar(s, '\\')
    ensures CountChar(s, '\\') == 0 ==> ConcatMap(LatexChainChar, s) == ConcatMap(LatexEscapeChar, s)
    decreases |s|
  {
    if |s| > 0 {
      LatexEscapeLengths(s[1..]);
    }
  }

  lemma {:induction false} CountCharZero(s: string, c: char)
    ensures CountChar(s, c) == 0 <==> forall i :: 0 <= i < |s| ==> s[i] != c
    decreases |s|
  {
    if |s| > 0 {
      CountCharZero(s[1..], c);
      assert forall i :: 1 <= i < |s| ==> s[i] == s[1..][i - 1];
    }
  }

  /** The escape `RenderLaTeX` uses agrees with the single-pass `latexEscape`
      exactly on text without a backslash; each backslash comes out as
      `\textbackslash\{\}` instead of `\textbackslash{}`. */
  lemma LatexEscapesAgreeIff(s: string)
    ensures LatexEscapeChained(s) == LatexEscape(s) <==> forall i :: 0 <= i < |s| ==> s[i] != '\\'
  {
    LatexChainedPerChar(s);
    LatexEscapeLengths(s);
    CountCharZero(s, '\\');
  }

  /** Every LaTeX line after the opening two, other than the last, is a row
      (the header first) that ends in ` \ \hline` with a single backslash. */
  lemma LatexRowsEnd(t: Table)
    ensures |LatexLines(t)| == |t.rows| + 4
    ensures forall k :: 2 <= k < |LatexLines(t)| - 1 ==>
      var line := LatexLines(t)[k];
      |line| >= 9 && line[|line| - 9..] == " \\ \\hline"
  {
  }

  // Dispatch

  /** The format name is matched case-insensitively: a name selects the same
      renderer as its lower-case form. */
  lemma ParseFormatCaseInsensitive(name: string)
    ensures ParseFormat(name) == ParseFormat(ToLower(name))
  {
    assert ToLower(ToLower(name)) == ToLower(name);
  }

  /** "unicode" is not a format name: it selects the ASCII renderer, like
      every name outside the recognised list. */
  lemma UnicodeNameFallsBack(t: Table, renderCSV: Table -> string, renderJSON: Table -> string)
    requires Renderable(t)
    ensures ParseFormat("unicode") == PlainText
    ensures GetFormattedString(t, "unicode", renderCSV, renderJSON) == RenderASCII(t)
  {
  }
}
