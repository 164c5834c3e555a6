/** Concrete scenarios from the repository's test file, worked through the
    model: the rendered boxes of `TestTableBasic` and `TestTableAddColumn`,
    the tables their AddRow and AddColumn calls build, the error cases of the
    mutation layer, deleting a row and a column, clearing, and sorting by a
    column in both directions. */
module Scenarios {
  import opened Results
  import opened Text
  import opened Values
  import opened Layout
  import opened Tables
  import opened Pipeline
  import opened Render

  lemma ThreeDigits(n: nat, s: string)
    requires 100 <= n < 1000 && |s| == 3
    requires s[0] == DigitChar(n / 100) && s[1] == DigitChar(n / 10 % 10) && s[2] == DigitChar(n % 10)
    ensures Format(Int(n)) == s
  {
    assert NatToDecimal(n / 100) == [s[0]];
    assert NatToDecimal(n / 10) == [s[0], s[1]];
  }

  lemma Dashes(n: nat, s: string)
    requires |s| == n && forall i :: 0 <= i < n ==> s[i] == '-'
    ensures Repeat("-", n) == s
  {
  }

  function Basic(): Table
  {
    NewTableWithFields(["A", "B"]).(rows := [[Str("foo"), Int(123)], [Str("bar"), Int(456)]])
  }

  lemma BasicTexts(t: Table)
    requires t == Basic()
    ensures Texts(t.rows[0]) == ["foo", "123"] && Texts(t.rows[1]) == ["bar", "456"]
  {
    ThreeDigits(123, "123");
    ThreeDigits(456, "456");
  }

  /** Columns whose cells are all w wide, under headers no wider, are w
      wide. */
  lemma UniformWidths(m: Measure, fields: seq<string>, rows: seq<Row>, w: nat)
    requires |rows| > 0 && RowsFit(rows, |fields|) && |rows[0]| == |fields|
    requires forall i :: 0 <= i < |fields| ==> Width(m, fields[i]) <= w
    requires forall k, i :: 0 <= k < |rows| && 0 <= i < |rows[k]| ==> CellWidth(m, rows[k][i]) == w
    ensures ColumnWidths(m, fields, rows) == seq(|fields|, i => w)
  {
    var ws := ColumnWidths(m, fields, rows);
    forall i | 0 <= i < |fields|
      ensures ws[i] == w
    {
      assert CellWidth(m, rows[0][i]) <= ws[i];
    }
  }

  lemma AsciiCell(v: Value, s: string)
    requires Format(v) == s && forall i :: 0 <= i < |s| ==> s[i] as int < 0x80
    ensures CellWidth(Bytes, v) == |s|
  {
    WidthAscii(Bytes, s);
  }

  lemma BasicWorking(t: Table)
    requires t == Basic()
    ensures Renderable(t) && WorkingRows(t) == t.rows
  {
  }

  lemma BasicWidths(t: Table)
    requires t == Basic()
    ensures Renderable(t) && WorkingRows(t) == t.rows
    ensures BoxWidths(Bytes, t) == [3, 3]
  {
    BasicWorking(t);
    WidthAscii(Bytes, "A");
    WidthAscii(Bytes, "B");
    BasicCellWidths(t);
    UniformWidths(Bytes, t.fields, t.rows, 3);
  }

  lemma BasicCellWidths(t: Table)
    requires t == Basic()
    ensures forall k, i :: 0 <= k < |t.rows| && 0 <= i < |t.rows[k]| ==> CellWidth(Bytes, t.rows[k][i]) == 3
  {
    BasicTexts(t);
    AsciiCell(t.rows[0][0], "foo");
    AsciiCell(t.rows[0][1], "123");
    AsciiCell(t.rows[1][0], "bar");
    AsciiCell(t.rows[1][1], "456");
  }

  lemma BasicBorder(ws: seq<nat>)
    requires ws == [3, 3]
    ensures AsciiBorder(ws) == "+-----+-----+"
  {
    Dashes(5, "-----");
    assert AsciiRuns(ws[1..]) == "-----+";
  }

  lemma LastCell(m: Measure, b: string, ws: seq<nat>, aligns: seq<Alignment>, pb: string)
    requires |ws| >= 1 && |aligns| >= 1 && pb == Pad(m, b, ws[0], aligns[0])
    ensures BoxedCells(m, [b], ws, aligns, '|') == " " + pb + " |"
  {
    assert [b][1..] == [];
    assert BoxedCells(m, [b][1..], ws[1..], aligns[1..], '|') == "";
  }

  /** A header or data line of two left-aligned cells. */
  lemma TwoCellLine(m: Measure, a: string, b: string, pa: string, pb: string, ws: seq<nat>, aligns: seq<Alignment>)
    requires |ws| == 2 && |aligns| == 2
    requires pa == Pad(m, a, ws[0], aligns[0]) && pb == Pad(m, b, ws[1], aligns[1])
    ensures "|" + BoxedCells(m, [a, b], ws, aligns, '|') == "| " + pa + " | " + pb + " |"
  {
    assert [a, b][1..] == [b];
    LastCell(m, b, ws[1..], aligns[1..], pb);
  }

  /** Left alignment of ASCII text in a column w bytes wide. */
  lemma PadLeftAscii(s: string, w: nat, p: string)
    requires |s| <= w && (forall i :: 0 <= i < |s| ==> s[i] as int < 0x80)
    requires p == s + Spaces(w - |s|)
    ensures Pad(Bytes, s, w, Left) == p
  {
    WidthAscii(Bytes, s);
    if |s| == w {
      assert p == s;
    }
  }

  /** The lines of a two-row ASCII table, assembled from its parts. */
  lemma TwoRowAsciiLines(t: Table, border: string, header: string, row0: string, row1: string)
    requires |t.fields| > 0 && Renderable(t) && |WorkingRows(t)| == 2
    requires RowsFit(WorkingRows(t), |t.fields|)
    requires AsciiBorder(BoxWidths(Bytes, t)) == border
    requires "|" + BoxedCells(Bytes, t.fields, BoxWidths(Bytes, t), FieldAligns(t), '|') == header
    requires "|" + BoxedCells(Bytes, Texts(WorkingRows(t)[0]), BoxWidths(Bytes, t), FieldAligns(t), '|') == row0
    requires "|" + BoxedCells(Bytes, Texts(WorkingRows(t)[1]), BoxWidths(Bytes, t), FieldAligns(t), '|') == row1
    ensures AsciiLines(t) == [border, header, border, row0, row1, border]
  {
    var ws, aligns := BoxWidths(Bytes, t), FieldAligns(t);
    var lines := BoxedRows(Bytes, WorkingRows(t), ws, aligns, '|');
    TwoBoxedRows(Bytes, WorkingRows(t), ws, aligns, '|');
    assert lines == [row0, row1];
    assert AsciiLines(t) == [border, header, border] + lines + [border];
  }

  lemma TwoBoxedRows(m: Measure, rows: seq<Row>, ws: seq<nat>, aligns: seq<Alignment>, bar: char)
    requires |rows| == 2 && RowsFit(rows, |ws|) && |ws| <= |aligns|
    ensures BoxedRows(m, rows, ws, aligns, bar)
      == [[bar] + BoxedCells(m, Texts(rows[0]), ws, aligns, bar), [bar] + BoxedCells(m, Texts(rows[1]), ws, aligns, bar)]
  {
  }

  lemma BasicAligns(t: Table)
    requires t == Basic()
    ensures FieldAligns(t) == [Left, Left]
  {
  }

  lemma BasicHeader(fields: seq<string>, ws: seq<nat>, aligns: seq<Alignment>, header: string)
    requires fields == ["A", "B"] && ws == [3, 3] && aligns == [Left, Left] && header == "| A   | B   |"
    ensures "|" + BoxedCells(Bytes, fields, ws, aligns, '|') == header
  {
    PadLeftAscii("A", 3, "A  ");
    PadLeftAscii("B", 3, "B  ");
    TwoCellLine(Bytes, "A", "B", "A  ", "B  ", ws, aligns);
  }

  /** A data line of two three-character ASCII cells. */
  lemma FullCells(a: string, b: string, ws: seq<nat>, aligns: seq<Alignment>)
    requires |a| == 3 && |b| == 3 && ws == [3, 3] && aligns == [Left, Left]
    requires (forall i :: 0 <= i < 3 ==> a[i] as int < 0x80) && (forall i :: 0 <= i < 3 ==> b[i] as int < 0x80)
    ensures "|" + BoxedCells(Bytes, [a, b], ws, aligns, '|') == "| " + a + " | " + b + " |"
  {
    WidthAscii(Bytes, a);
    WidthAscii(Bytes, b);
    TwoCellLine(Bytes, a, b, a, b, ws, aligns);
  }

  lemma BasicRow0(ws: seq<nat>, aligns: seq<Alignment>, row0: string)
    requires ws == [3, 3] && aligns == [Left, Left] && row0 == "| foo | 123 |"
    ensures "|" + BoxedCells(Bytes, ["foo", "123"], ws, aligns, '|') == row0
  {
    FullCells("foo", "123", ws, aligns);
  }

  lemma BasicRow1(ws: seq<nat>, aligns: seq<Alignment>, row1: string)
    requires ws == [3, 3] && aligns == [Left, Left] && row1 == "| bar | 456 |"
    ensures "|" + BoxedCells(Bytes, ["bar", "456"], ws, aligns, '|') == row1
  {
    FullCells("bar", "456", ws, aligns);
  }

  lemma BasicAsciiLines(t: Table, border: string, header: string, row0: string, row1: string)
    requires t == Basic()
    requires border == "+-----+-----+" && header == "| A   | B   |"
    requires row0 == "| foo | 123 |" && row1 == "| bar | 456 |"
    ensures Renderable(t) && AsciiLines(t) == [border, header, border, row0, row1, border]
  {
    BasicWidths(t);
    BasicTexts(t);
    BasicAligns(t);
    var ws := BoxWidths(Bytes, t);
    var aligns := FieldAligns(t);
    BasicBorder(ws);
    BasicHeader(t.fields, ws, aligns, header);
    BasicRow0(ws, aligns, row0);
    BasicRow1(ws, aligns, row1);
    TwoRowAsciiLines(t, border, header, row0, row1);
  }

  /** The table of `TestTableBasic` is what two `AddRow` calls on a table
      with fields A and B build. */
  lemma BasicByAddRow()
    ensures var t0 := NewTableWithFields(["A", "B"]);
      && AddRow(t0, [Str("foo"), Int(123)]).Ok?
      && AddRow(AddRow(t0, [Str("foo"), Int(123)]).value, [Str("bar"), Int(456)]) == Ok(Basic())
  {
    var t0 := NewTableWithFields(["A", "B"]);
    var t1 := AddRow(t0, [Str("foo"), Int(123)]).value;
    assert t1.rows == [[Str("foo"), Int(123)]];
    assert t1.rows + [[Str("bar"), Int(456)]] == Basic().rows;
  }

  /** `TestTableBasic`: the six lines of the expected box, joined by
      newlines (the test trims surrounding whitespace, of which there is
      none). */
  lemma BasicAscii()
    ensures Renderable(Basic())
    ensures RenderASCII(Basic()) == JoinLines([
      "+-----+-----+",
      "| A   | B   |",
      "+-----+-----+",
      "| foo | 123 |",
      "| bar | 456 |",
      "+-----+-----+"])
  {
    BasicAsciiLines(Basic(), "+-----+-----+", "| A   | B   |", "| foo | 123 |", "| bar | 456 |");
  }

  /** `TestTableAddRowError`: a one-cell row under two fields is refused. */
  lemma AddRowShortRow()
    ensures AddRow(NewTableWithFields(["A", "B"]), [Str("only one col")]) == Err(ColumnCountMismatch(1, 2))
  {
  }

  /** `TestTableAddColumnError`: a two-value column next to three rows is
      refused. */
  lemma AddColumnShortColumn()
    ensures AddColumn(NewTable(), "A", [Int(1), Int(2), Int(3)]).Ok?
    ensures AddColumn(AddColumn(NewTable(), "A", [Int(1), Int(2), Int(3)]).value, "B", [Int(4), Int(5)])
      == Err(ColumnCountMismatch(2, 3))
  {
  }

  function ThreeByThree(): Table
  {
    NewTableWithFields(["A", "B", "C"]).(rows := [[Int(1), Int(2), Int(3)], [Int(4), Int(5), Int(6)], [Int(7), Int(8), Int(9)]])
  }

  /** `TestDelRowAndDelColumn` builds its table with three AddRow calls. */
  lemma ThreeByThreeByAddRow()
    ensures var t0 := NewTableWithFields(["A", "B", "C"]);
      && AddRow(t0, [Int(1), Int(2), Int(3)]).Ok?
      && var t1 := AddRow(t0, [Int(1), Int(2), Int(3)]).value;
      && AddRow(t1, [Int(4), Int(5), Int(6)]).Ok?
      && var t2 := AddRow(t1, [Int(4), Int(5), Int(6)]).value;
      && AddRow(t2, [Int(7), Int(8), Int(9)]) == Ok(ThreeByThree())
  {
    var t0 := NewTableWithFields(["A", "B", "C"]);
    var t1 := AddRow(t0, [Int(1), Int(2), Int(3)]).value;
    assert t1.rows == [[Int(1), Int(2), Int(3)]];
    var t2 := AddRow(t1, [Int(4), Int(5), Int(6)]).value;
    assert t2.rows == [[Int(1), Int(2), Int(3)], [Int(4), Int(5), Int(6)]];
    assert t2.rows + [[Int(7), Int(8), Int(9)]] == ThreeByThree().rows;
  }

  lemma DropFirstCell(row: Row, rest: Row)
    requires |row| > 0 && rest == row[1..]
    ensures DropCell(row, 0) == rest
  {
  }

  /** `TestDelRowAndDelColumn`: deleting row 1 and then column A leaves the
      rows [2 3] and [8 9] under fields B and C; row 10 and column Z are
      refused. */
  lemma DelRowAndDelColumn()
    ensures DelRow(ThreeByThree(), 1).Ok?
    ensures var t := DelRow(ThreeByThree(), 1).value;
      && t.rows == [[Int(1), Int(2), Int(3)], [Int(7), Int(8), Int(9)]]
      && DelColumn(t, "A").Ok?
      && DelColumn(t, "A").value.fields == ["B", "C"]
      && DelColumn(t, "A").value.rows == [[Int(2), Int(3)], [Int(8), Int(9)]]
      && DelRow(t, 10) == Err(IndexOutOfRange(10))
      && DelColumn(t, "Z") == Err(ColumnNotFound("Z"))
  {
    var t := DelRow(ThreeByThree(), 1).value;
    assert t.rows == [[Int(1), Int(2), Int(3)], [Int(7), Int(8), Int(9)]];
    DelFirstColumn(t, t.rows[0], t.rows[1]);
  }

  /** Deleting column A of a table with fields A, B, C drops the first cell
      of every row; column Z is refused. */
  lemma DelFirstColumn(t: Table, r0: Row, r1: Row)
    requires t.fields == ["A", "B", "C"] && t.rows == [r0, r1] && |r0| == 3 && |r1| == 3
    ensures DelColumn(t, "A").Ok?
    ensures DelColumn(t, "A").value.fields == ["B", "C"]
    ensures DelColumn(t, "A").value.rows == [r0[1..], r1[1..]]
    ensures DelColumn(t, "Z") == Err(ColumnNotFound("Z"))
  {
    assert IndexOf(t.fields, "A") == Some(0);
    DropFirstCell(r0, r0[1..]);
    DropFirstCell(r1, r1[1..]);
    var d := DelColumn(t, "A").value;
    assert d.fields == t.fields[1..];
  }

  function TwoByTwo(): Table
  {
    NewTableWithFields(["A", "B"]).(rows := [[Int(1), Int(2)], [Int(3), Int(4)]])
  }

  /** `TestClearRowsAndClear` builds its table with two AddRow calls. */
  lemma TwoByTwoByAddRow()
    ensures var t0 := NewTableWithFields(["A", "B"]);
      && AddRow(t0, [Int(1), Int(2)]).Ok?
      && AddRow(AddRow(t0, [Int(1), Int(2)]).value, [Int(3), Int(4)]) == Ok(TwoByTwo())
  {
    var t0 := NewTableWithFields(["A", "B"]);
    var t1 := AddRow(t0, [Int(1), Int(2)]).value;
    assert t1.rows == [[Int(1), Int(2)]];
    assert t1.rows + [[Int(3), Int(4)]] == TwoByTwo().rows;
  }

  /** `TestClearRowsAndClear`: ClearRows keeps the two fields, Clear empties
      fields and rows. */
  lemma ClearRowsThenClear()
    ensures ClearRows(TwoByTwo()).rows == [] && ClearRows(TwoByTwo()).fields == ["A", "B"]
    ensures Clear(ClearRows(TwoByTwo())).rows == [] && Clear(ClearRows(TwoByTwo())).fields == []
  {
  }

  lemma DigitOrder(one: string, two: string, three: string)
    requires one == "1" && two == "2" && three == "3"
    ensures Less(one, two) && Less(two, three) && !Less(two, one) && !Less(three, two) && !Less(three, one)
  {
  }

  /** Three rows with keys 1, 2, 3 are told apart by their keys. */
  lemma DistinctDigitKeys(a: Row, b: Row, c: Row)
    requires |a| == 2 && |b| == 2 && |c| == 2
    requires KeyText(a, 1) == "1" && KeyText(b, 1) == "2" && KeyText(c, 1) == "3"
    ensures KeysIdentifyRows([b, a, c], 1)
  {
  }

  /** Rows with keys 1, 2, 3 listed in that order are sorted. */
  lemma AscendingKeys(a: Row, b: Row, c: Row)
    requires |a| == 2 && |b| == 2 && |c| == 2
    requires KeyText(a, 1) == "1" && KeyText(b, 1) == "2" && KeyText(c, 1) == "3"
    ensures SortedByKey([a, b, c], 1, false)
  {
    DigitOrder(KeyText(a, 1), KeyText(b, 1), KeyText(c, 1));
  }

  /** Listed backwards they are reverse-sorted. */
  lemma DescendingKeys(a: Row, b: Row, c: Row)
    requires |a| == 2 && |b| == 2 && |c| == 2
    requires KeyText(a, 1) == "1" && KeyText(b, 1) == "2" && KeyText(c, 1) == "3"
    ensures SortedByKey([c, b, a], 1, true)
  {
    DigitOrder(KeyText(a, 1), KeyText(b, 1), KeyText(c, 1));
  }

  lemma SampleKeys(foo: Row, bar: Row, baz: Row)
    requires foo == [Str("foo"), Int(2)] && bar == [Str("bar"), Int(1)] && baz == [Str("baz"), Int(3)]
    ensures |foo| == 2 && |bar| == 2 && |baz| == 2
    ensures KeyText(bar, 1) == "1" && KeyText(foo, 1) == "2" && KeyText(baz, 1) == "3"
  {
  }

  /** Sorting rows foo 2, bar 1, baz 3 by B orders them by the text of their
      B cell; reversed, the other way round. The rows are parameters so that
      the verifier reasons about the sort rather than evaluating it. */
  lemma SortByB(foo: Row, bar: Row, baz: Row, reverse: bool)
    requires foo == [Str("foo"), Int(2)] && bar == [Str("bar"), Int(1)] && baz == [Str("baz"), Int(3)]
    ensures var t := SetSortBy(NewTableWithFields(["A", "B"]).(rows := [foo, bar, baz]), "B", reverse);
      && SortSafe(t)
      && WorkingRows(t) == if reverse then [baz, foo, bar] else [bar, foo, baz]
  {
    var t := SetSortBy(NewTableWithFields(["A", "B"]).(rows := [foo, bar, baz]), "B", reverse);
    SortedByB(t, foo, bar, baz);
  }

  lemma SortedByB(t: Table, foo: Row, bar: Row, baz: Row)
    requires foo == [Str("foo"), Int(2)] && bar == [Str("bar"), Int(1)] && baz == [Str("baz"), Int(3)]
    requires t.fields == ["A", "B"] && t.rows == [foo, bar, baz] && t.sortBy == "B" && t.filter.None?
    ensures SortSafe(t)
    ensures WorkingRows(t) == if t.reverseSort then [baz, foo, bar] else [bar, foo, baz]
  {
    assert t.fields[1] == t.sortBy && t.fields[0] != t.sortBy;
    assert SortIndex(t) == Some(1);
    assert Filtered(t) == [foo, bar, baz];
    SampleKeys(foo, bar, baz);
    assert SortSafe(t);
    DigitKeysSort(t, bar, foo, baz);
  }

  /** Rows b, a, c whose keys are 2, 1, 3 come out as a, b, c, or c, b, a
      when reversed. */
  lemma DigitKeysSort(t: Table, a: Row, b: Row, c: Row)
    requires |a| == 2 && |b| == 2 && |c| == 2
    requires KeyText(a, 1) == "1" && KeyText(b, 1) == "2" && KeyText(c, 1) == "3"
    requires SortSafe(t) && SortIndex(t) == Some(1) && Filtered(t) == [b, a, c]
    ensures WorkingRows(t) == if t.reverseSort then [c, b, a] else [a, b, c]
  {
    DistinctDigitKeys(a, b, c);
    if t.reverseSort {
      DescendingKeys(a, b, c);
      ThreeSortedAreWorking(t, a, b, c, [c, b, a]);
    } else {
      AscendingKeys(a, b, c);
      ThreeSortedAreWorking(t, a, b, c, [a, b, c]);
    }
  }

  lemma ThreeSortedAreWorking(t: Table, a: Row, b: Row, c: Row, w: seq<Row>)
    requires SortSafe(t) && SortIndex(t).Some? && Filtered(t) == [b, a, c]
    requires KeysIdentifyRows([b, a, c], SortIndex(t).value)
    requires w == [a, b, c] || w == [c, b, a]
    requires SortedByKey(w, SortIndex(t).value, t.reverseSort)
    ensures WorkingRows(t) == w
  {
    assert multiset(w) == multiset([b, a, c]);
    WorkingRowsDetermined(t, w);
  }

  // TestTableAddColumn

  /** The table `TestTableAddColumn` builds. A float cell carries the text
      `%v` gives it. */
  function Cities(): Table
  {
    NewTableWithFields(["City name", "Area", "Population", "Annual Rainfall"]).(rows := [
      [Str("Adelaide"), Int(1295), Int(1158259), Float("600.5")],
      [Str("Brisbane"), Int(5905), Int(1857594), Float("1146.4")],
      [Str("Darwin"), Int(112), Int(120900), Float("1714.7")]])
  }

  /** AddColumn on a table with rows, given the rows it should produce. */
  lemma AppendedColumn(t: Table, name: string, column: seq<Value>, rows: seq<Row>)
    requires |t.rows| > 0 && |column| == |t.rows| && |rows| == |t.rows|
    requires forall i :: 0 <= i < |rows| ==> rows[i] == t.rows[i] + [column[i]]
    ensures AddColumn(t, name, column) == Ok(t.(fields := t.fields + [name], rows := rows))
  {
    assert AddColumn(t, name, column).value.rows == rows;
  }

  /** AddColumn on a table without rows, given the rows it should produce. */
  lemma FirstColumn(t: Table, name: string, column: seq<Value>, rows: seq<Row>)
    requires |t.rows| == 0 && |rows| == |column|
    requires forall i :: 0 <= i < |rows| ==> rows[i] == [column[i]]
    ensures AddColumn(t, name, column) == Ok(t.(fields := t.fields + [name], rows := rows))
  {
    assert AddColumn(t, name, column).value.rows == rows;
  }

  /** `TestTableAddColumn`: four AddColumn calls on an empty table succeed
      and build the city table, the first one creating the rows. */
  lemma CitiesByAddColumn()
    ensures AddColumn(NewTable(), "City name", [Str("Adelaide"), Str("Brisbane"), Str("Darwin")]).Ok?
    ensures var t1 := AddColumn(NewTable(), "City name", [Str("Adelaide"), Str("Brisbane"), Str("Darwin")]).value;
      && AddColumn(t1, "Area", [Int(1295), Int(5905), Int(112)]).Ok?
      && var t2 := AddColumn(t1, "Area", [Int(1295), Int(5905), Int(112)]).value;
      && AddColumn(t2, "Population", [Int(1158259), Int(1857594), Int(120900)]).Ok?
      && var t3 := AddColumn(t2, "Population", [Int(1158259), Int(1857594), Int(120900)]).value;
      && AddColumn(t3, "Annual Rainfall", [Float("600.5"), Float("1146.4"), Float("1714.7")]) == Ok(Cities())
  {
    var t0 := NewTable();
    var rows1 := [[Str("Adelaide")], [Str("Brisbane")], [Str("Darwin")]];
    FirstColumn(t0, "City name", [Str("Adelaide"), Str("Brisbane"), Str("Darwin")], rows1);
    var t1 := t0.(fields := ["City name"], rows := rows1);
    assert AddColumn(NewTable(), "City name", [Str("Adelaide"), Str("Brisbane"), Str("Darwin")]).value == t1;
    var rows2 := [[Str("Adelaide"), Int(1295)], [Str("Brisbane"), Int(5905)], [Str("Darwin"), Int(112)]];
    AppendedColumn(t1, "Area", [Int(1295), Int(5905), Int(112)], rows2);
    var t2 := t1.(fields := ["City name", "Area"], rows := rows2);
    assert AddColumn(t1, "Area", [Int(1295), Int(5905), Int(112)]).value == t2;
    var rows3 := [
      [Str("Adelaide"), Int(1295), Int(1158259)],
      [Str("Brisbane"), Int(5905), Int(1857594)],
      [Str("Darwin"), Int(112), Int(120900)]];
    AppendedColumn(t2, "Population", [Int(1158259), Int(1857594), Int(120900)], rows3);
    var t3 := t2.(fields := ["City name", "Area", "Population"], rows := rows3);
    assert AddColumn(t2, "Population", [Int(1158259), Int(1857594), Int(120900)]).value == t3;
    AppendedColumn(t3, "Annual Rainfall", [Float("600.5"), Float("1146.4"), Float("1714.7")], Cities().rows);
    assert t3.(fields := t3.fields + ["Annual Rainfall"], rows := Cities().rows) == Cities();
  }

  /** One more digit: the decimal text of n is that of n / 10 followed by
      the digit n % 10. */
  lemma DecimalStep(n: nat, p: string, c: char, s: string)
    requires n >= 10 && NatToDecimal(n / 10) == p && c == DigitChar(n % 10) && s == p + [c]
    ensures NatToDecimal(n) == s
  {
  }

  lemma RowTexts(row: Row, texts: seq<string>)
    requires |row| == |texts| && forall i :: 0 <= i < |row| ==> Format(row[i]) == texts[i]
    ensures Texts(row) == texts
  {
  }

  lemma AdelaideTexts(r: Row)
    requires r == [Str("Adelaide"), Int(1295), Int(1158259), Float("600.5")]
    ensures Texts(r) == ["Adelaide", "1295", "1158259", "600.5"]
  {
    DecimalStep(12, "1", '2', "12");
    DecimalStep(129, "12", '9', "129");
    DecimalStep(1295, "129", '5', "1295");
    DecimalStep(11, "1", '1', "11");
    DecimalStep(115, "11", '5', "115");
    DecimalStep(1158, "115", '8', "1158");
    DecimalStep(11582, "1158", '2', "11582");
    DecimalStep(115825, "11582", '5', "115825");
    DecimalStep(1158259, "115825", '9', "1158259");
    RowTexts(r, ["Adelaide", "1295", "1158259", "600.5"]);
  }

  lemma BrisbaneTexts(r: Row)
    requires r == [Str("Brisbane"), Int(5905), Int(1857594), Float("1146.4")]
    ensures Texts(r) == ["Brisbane", "5905", "1857594", "1146.4"]
  {
    DecimalStep(59, "5", '9', "59");
    DecimalStep(590, "59", '0', "590");
    DecimalStep(5905, "590", '5', "5905");
    DecimalStep(18, "1", '8', "18");
    DecimalStep(185, "18", '5', "185");
    DecimalStep(1857, "185", '7', "1857");
    DecimalStep(18575, "1857", '5', "18575");
    DecimalStep(185759, "18575", '9', "185759");
    DecimalStep(1857594, "185759", '4', "1857594");
    RowTexts(r, ["Brisbane", "5905", "1857594", "1146.4"]);
  }

  lemma DarwinTexts(r: Row)
    requires r == [Str("Darwin"), Int(112), Int(120900), Float("1714.7")]
    ensures Texts(r) == ["Darwin", "112", "120900", "1714.7"]
  {
    DecimalStep(11, "1", '1', "11");
    DecimalStep(112, "11", '2', "112");
    DecimalStep(12, "1", '2', "12");
    DecimalStep(120, "12", '0', "120");
    DecimalStep(1209, "120", '9', "1209");
    DecimalStep(12090, "1209", '0', "12090");
    DecimalStep(120900, "12090", '0', "120900");
    RowTexts(r, ["Darwin", "112", "120900", "1714.7"]);
  }

  predicate AsciiText(s: string)
  {
    forall j :: 0 <= j < |s| ==> s[j] as int < 0x80
  }

  /** A row of ASCII texts, each no longer than its header is wide, has no
      cell wider than its header. */
  lemma AsciiRowFits(row: Row, texts: seq<string>, fields: seq<string>, ws: seq<nat>)
    requires |row| == |texts| <= |fields| && Texts(row) == texts
    requires HeaderWidths(Bytes, fields) == ws
    requires forall i :: 0 <= i < |texts| ==> AsciiText(texts[i]) && |texts[i]| <= ws[i]
    ensures forall i :: 0 <= i < |row| ==> CellWidth(Bytes, row[i]) <= Width(Bytes, fields[i])
  {
    forall i | 0 <= i < |row|
      ensures CellWidth(Bytes, row[i]) <= Width(Bytes, fields[i])
    {
      WidthAscii(Bytes, texts[i]);
    }
  }

  /** The texts of the city table are ASCII and no longer than the widths
      of their headers. */
  lemma CitiesTextsFit(texts: seq<string>)
    requires || texts == ["Adelaide", "1295", "1158259", "600.5"]
             || texts == ["Brisbane", "5905", "1857594", "1146.4"]
             || texts == ["Darwin", "112", "120900", "1714.7"]
    ensures |texts| == 4
    ensures forall i :: 0 <= i < 4 ==> AsciiText(texts[i]) && |texts[i]| <= [9, 4, 10, 15][i]
  {
  }

  /** Four columns whose headers are the given widths wide. */
  lemma FourHeaderWidths(m: Measure, fields: seq<string>, ws: seq<nat>)
    requires |fields| == |ws| == 4
    requires forall i :: 0 <= i < 4 ==> Width(m, fields[i]) == ws[i]
    ensures HeaderWidths(m, fields) == ws
  {
  }

  lemma CitiesHeaderWidths(a: string, b: string, c: string, d: string)
    requires a == "City name" && b == "Area" && c == "Population" && d == "Annual Rainfall"
    ensures HeaderWidths(Bytes, [a, b, c, d]) == [9, 4, 10, 15]
  {
    WidthAscii(Bytes, a);
    WidthAscii(Bytes, b);
    WidthAscii(Bytes, c);
    WidthAscii(Bytes, d);
    FourHeaderWidths(Bytes, [a, b, c, d], [9, 4, 10, 15]);
  }

  lemma CitiesFieldWidths(t: Table)
    requires t == Cities()
    ensures HeaderWidths(Bytes, t.fields) == [9, 4, 10, 15]
  {
    CitiesHeaderWidths(t.fields[0], t.fields[1], t.fields[2], t.fields[3]);
    assert t.fields == [t.fields[0], t.fields[1], t.fields[2], t.fields[3]];
  }

  /** No cell of the city table is wider than its header. */
  lemma CitiesCellsFit(t: Table, ws: seq<nat>)
    requires t == Cities() && HeaderWidths(Bytes, t.fields) == ws && ws == [9, 4, 10, 15]
    ensures forall k, i :: 0 <= k < |t.rows| && 0 <= i < |t.rows[k]| ==> CellWidth(Bytes, t.rows[k][i]) <= Width(Bytes, t.fields[i])
  {
    AdelaideTexts(t.rows[0]);
    BrisbaneTexts(t.rows[1]);
    DarwinTexts(t.rows[2]);
    CitiesTextsFit(Texts(t.rows[0]));
    CitiesTextsFit(Texts(t.rows[1]));
    CitiesTextsFit(Texts(t.rows[2]));
    AsciiRowFits(t.rows[0], Texts(t.rows[0]), t.fields, ws);
    AsciiRowFits(t.rows[1], Texts(t.rows[1]), t.fields, ws);
    AsciiRowFits(t.rows[2], Texts(t.rows[2]), t.fields, ws);
  }

  lemma CitiesWorking(t: Table)
    requires t == Cities()
    ensures Renderable(t) && WorkingRows(t) == t.rows
  {
  }

  /** So the columns are 9, 4, 10 and 15 bytes wide: the widths of the
      headers. */
  lemma CitiesWidths(t: Table)
    requires t == Cities()
    ensures Renderable(t) && WorkingRows(t) == t.rows
    ensures BoxWidths(Bytes, t) == [9, 4, 10, 15]
  {
    CitiesWorking(t);
    CitiesFieldWidths(t);
    CitiesCellsFit(t, [9, 4, 10, 15]);
    HeadersDominate(Bytes, t.fields, t.rows);
  }

  /** A border over four columns, one run of dashes per column. */
  lemma FourRuns(ws: seq<nat>, a: string, b: string, c: string, d: string)
    requires |ws| == 4
    requires a == Repeat("-", ws[0] + 2) + "+" && b == Repeat("-", ws[1] + 2) + "+"
    requires c == Repeat("-", ws[2] + 2) + "+" && d == Repeat("-", ws[3] + 2) + "+"
    ensures AsciiBorder(ws) == "+" + a + b + c + d
  {
    assert AsciiRuns(ws[4..]) == "";
    assert ws[3..][1..] == ws[4..];
    assert AsciiRuns(ws[3..]) == d;
    assert ws[2..][1..] == ws[3..];
    assert AsciiRuns(ws[2..]) == c + d;
    assert ws[1..][1..] == ws[2..];
    assert AsciiRuns(ws[1..]) == b + c + d;
  }

  lemma CitiesBorder(ws: seq<nat>)
    requires ws == [9, 4, 10, 15]
    ensures AsciiBorder(ws) == "+" + "-----------+" + "------+" + "------------+" + "-----------------+"
  {
    Dashes(11, "-----------");
    Dashes(6, "------");
    Dashes(12, "------------");
    Dashes(17, "-----------------");
    FourRuns(ws, "-----------+", "------+", "------------+", "-----------------+");
  }

  /** The first cell of a line, then the rest. */
  lemma ConsCell(m: Measure, texts: seq<string>, ws: seq<nat>, aligns: seq<Alignment>, cell: string, rest: string)
    requires 1 <= |texts| <= |ws| && |texts| <= |aligns|
    requires cell == " " + Pad(m, texts[0], ws[0], aligns[0]) + " |"
    requires rest == BoxedCells(m, texts[1..], ws[1..], aligns[1..], '|')
    ensures BoxedCells(m, texts, ws, aligns, '|') == cell + rest
  {
  }

  lemma Regroup(a: string, b: string, c: string, d: string, e: string)
    ensures a + (b + (c + (d + e))) == a + b + c + d + e
  {
  }

  /** A header or data line of four cells. */
  lemma FourCellLine(m: Measure, texts: seq<string>, cells: seq<string>, ws: seq<nat>, aligns: seq<Alignment>)
    requires |texts| == 4 && |cells| == 4 && |ws| == 4 && |aligns| == 4
    requires forall i :: 0 <= i < 4 ==> cells[i] == " " + Pad(m, texts[i], ws[i], aligns[i]) + " |"
    ensures "|" + BoxedCells(m, texts, ws, aligns, '|') == "|" + cells[0] + cells[1] + cells[2] + cells[3]
  {
    var t1, t2, t3 := texts[1..], texts[2..], texts[3..];
    assert t1[1..] == t2 && t2[1..] == t3 && t3[1..] == [];
    ConsCell(m, t3, ws[3..], aligns[3..], cells[3], "");
    ConsCell(m, t2, ws[2..], aligns[2..], cells[2], cells[3]);
    ConsCell(m, t1, ws[1..], aligns[1..], cells[1], cells[2] + cells[3]);
    ConsCell(m, texts, ws, aligns, cells[0], cells[1] + (cells[2] + cells[3]));
    Regroup("|", cells[0], cells[1], cells[2], cells[3]);
  }

  /** A line of four left-aligned ASCII cells, each padded with spaces to
      its column's width. */
  lemma LeftAsciiLine(texts: seq<string>, cells: seq<string>, ws: seq<nat>)
    requires |texts| == 4 && |cells| == 4 && |ws| == 4
    requires forall i :: 0 <= i < 4 ==> AsciiText(texts[i]) && |texts[i]| <= ws[i]
    requires forall i :: 0 <= i < 4 ==> cells[i] == " " + texts[i] + Spaces(ws[i] - |texts[i]|) + " |"
    ensures "|" + BoxedCells(Bytes, texts, ws, [Left, Left, Left, Left], '|') == "|" + cells[0] + cells[1] + cells[2] + cells[3]
  {
    forall i | 0 <= i < 4
      ensures cells[i] == " " + Pad(Bytes, texts[i], ws[i], Left) + " |"
    {
      PadLeftAscii(texts[i], ws[i], texts[i] + Spaces(ws[i] - |texts[i]|));
    }
    FourCellLine(Bytes, texts, cells, ws, [Left, Left, Left, Left]);
  }

  lemma CitiesFieldsAscii(fields: seq<string>)
    requires fields == ["City name", "Area", "Population", "Annual Rainfall"]
    ensures forall i :: 0 <= i < 4 ==> AsciiText(fields[i]) && |fields[i]| == [9, 4, 10, 15][i]
  {
  }

  lemma CitiesHeader(fields: seq<string>, ws: seq<nat>)
    requires fields == ["City name", "Area", "Population", "Annual Rainfall"] && ws == [9, 4, 10, 15]
    ensures "|" + BoxedCells(Bytes, fields, ws, [Left, Left, Left, Left], '|')
      == "|" + " City name |" + " Area |" + " Population |" + " Annual Rainfall |"
  {
    CitiesFieldsAscii(fields);
    LeftAsciiLine(fields, [" City name |", " Area |", " Population |", " Annual Rainfall |"], ws);
  }

  lemma AdelaideLine(texts: seq<string>, ws: seq<nat>)
    requires texts == ["Adelaide", "1295", "1158259", "600.5"] && ws == [9, 4, 10, 15]
    ensures "|" + BoxedCells(Bytes, texts, ws, [Left, Left, Left, Left], '|')
      == "|" + " Adelaide  |" + " 1295 |" + " 1158259    |" + " 600.5           |"
  {
    CitiesTextsFit(texts);
    LeftAsciiLine(texts, [" Adelaide  |", " 1295 |", " 1158259    |", " 600.5           |"], ws);
  }

  lemma BrisbaneLine(texts: seq<string>, ws: seq<nat>)
    requires texts == ["Brisbane", "5905", "1857594", "1146.4"] && ws == [9, 4, 10, 15]
    ensures "|" + BoxedCells(Bytes, texts, ws, [Left, Left, Left, Left], '|')
      == "|" + " Brisbane  |" + " 5905 |" + " 1857594    |" + " 1146.4          |"
  {
    CitiesTextsFit(texts);
    LeftAsciiLine(texts, [" Brisbane  |", " 5905 |", " 1857594    |", " 1146.4          |"], ws);
  }

  lemma DarwinLine(texts: seq<string>, ws: seq<nat>)
    requires texts == ["Darwin", "112", "120900", "1714.7"] && ws == [9, 4, 10, 15]
    ensures "|" + BoxedCells(Bytes, texts, ws, [Left, Left, Left, Left], '|')
      == "|" + " Darwin    |" + " 112  |" + " 120900     |" + " 1714.7          |"
  {
    CitiesTextsFit(texts);
    LeftAsciiLine(texts, [" Darwin    |", " 112  |", " 120900     |", " 1714.7          |"], ws);
  }

  lemma ThreeBoxedRows(m: Measure, rows: seq<Row>, ws: seq<nat>, aligns: seq<Alignment>, bar: char)
    requires |rows| == 3 && RowsFit(rows, |ws|) && |ws| <= |aligns|
    ensures BoxedRows(m, rows, ws, aligns, bar)
      == [[bar] + BoxedCells(m, Texts(rows[0]), ws, aligns, bar),
          [bar] + BoxedCells(m, Texts(rows[1]), ws, aligns, bar),
          [bar] + BoxedCells(m, Texts(rows[2]), ws, aligns, bar)]
  {
  }

  /** The lines of a three-row ASCII table, assembled from its parts. */
  lemma ThreeRowAsciiLines(t: Table, border: string, header: string, row0: string, row1: string, row2: string)
    requires |t.fields| > 0 && Renderable(t) && |WorkingRows(t)| == 3
    requires RowsFit(WorkingRows(t), |t.fields|)
    requires AsciiBorder(BoxWidths(Bytes, t)) == border
    requires "|" + BoxedCells(Bytes, t.fields, BoxWidths(Bytes, t), FieldAligns(t), '|') == header
    requires "|" + BoxedCells(Bytes, Texts(WorkingRows(t)[0]), BoxWidths(Bytes, t), FieldAligns(t), '|') == row0
    requires "|" + BoxedCells(Bytes, Texts(WorkingRows(t)[1]), BoxWidths(Bytes, t), FieldAligns(t), '|') == row1
    requires "|" + BoxedCells(Bytes, Texts(WorkingRows(t)[2]), BoxWidths(Bytes, t), FieldAligns(t), '|') == row2
    ensures AsciiLines(t) == [border, header, border, row0, row1, row2, border]
  {
    var ws, aligns := BoxWidths(Bytes, t), FieldAligns(t);
    var lines := BoxedRows(Bytes, WorkingRows(t), ws, aligns, '|');
    ThreeBoxedRows(Bytes, WorkingRows(t), ws, aligns, '|');
    assert lines == [row0, row1, row2];
    assert AsciiLines(t) == [border, header, border] + lines + [border];
  }

  lemma CitiesAligns(t: Table)
    requires t == Cities()
    ensures FieldAligns(t) == [Left, Left, Left, Left]
  {
  }

  /** The lines of a table with the city table's headers, widths,
      alignments and cell texts. */
  lemma CitiesAsciiLines(t: Table, border: string, header: string, row0: string, row1: string, row2: string)
    requires t.fields == ["City name", "Area", "Population", "Annual Rainfall"]
    requires Renderable(t) && WorkingRows(t) == t.rows && |t.rows| == 3 && RowsFit(t.rows, 4)
    requires BoxWidths(Bytes, t) == [9, 4, 10, 15] && FieldAligns(t) == [Left, Left, Left, Left]
    requires Texts(t.rows[0]) == ["Adelaide", "1295", "1158259", "600.5"]
    requires Texts(t.rows[1]) == ["Brisbane", "5905", "1857594", "1146.4"]
    requires Texts(t.rows[2]) == ["Darwin", "112", "120900", "1714.7"]
    requires border == "+" + "-----------+" + "------+" + "------------+" + "-----------------+"
    requires header == "|" + " City name |" + " Area |" + " Population |" + " Annual Rainfall |"
    requires row0 == "|" + " Adelaide  |" + " 1295 |" + " 1158259    |" + " 600.5           |"
    requires row1 == "|" + " Brisbane  |" + " 5905 |" + " 1857594    |" + " 1146.4          |"
    requires row2 == "|" + " Darwin    |" + " 112  |" + " 120900     |" + " 1714.7          |"
    ensures AsciiLines(t) == [border, header, border, row0, row1, row2, border]
  {
    var ws := BoxWidths(Bytes, t);
    CitiesBorder(ws);
    CitiesHeader(t.fields, ws);
    AdelaideLine(Texts(t.rows[0]), ws);
    BrisbaneLine(Texts(t.rows[1]), ws);
    DarwinLine(Texts(t.rows[2]), ws);
    ThreeRowAsciiLines(t, border, header, row0, row1, row2);
  }

  /** `TestTableAddColumn`: the seven lines of the expected box, each
      written cell by cell, joined by newlines. */
  lemma CitiesAscii()
    ensures Renderable(Cities())
    ensures RenderASCII(Cities()) == JoinLines([
      "+" + "-----------+" + "------+" + "------------+" + "-----------------+",
      "|" + " City name |" + " Area |" + " Population |" + " Annual Rainfall |",
      "+" + "-----------+" + "------+" + "------------+" + "-----------------+",
      "|" + " Adelaide  |" + " 1295 |" + " 1158259    |" + " 600.5           |",
      "|" + " Brisbane  |" + " 5905 |" + " 1857594    |" + " 1146.4          |",
      "|" + " Darwin    |" + " 112  |" + " 120900     |" + " 1714.7          |",
      "+" + "-----------+" + "------+" + "------------+" + "-----------------+"])
  {
    var t := Cities();
    CitiesWidths(t);
    CitiesAligns(t);
    AdelaideTexts(t.rows[0]);
    BrisbaneTexts(t.rows[1]);
    DarwinTexts(t.rows[2]);
    CitiesAsciiLines(t,
      "+" + "-----------+" + "------+" + "------------+" + "-----------------+",
      "|" + " City name |" + " Area |" + " Population |" + " Annual Rainfall |",
      "|" + " Adelaide  |" + " 1295 |" + " 1158259    |" + " 600.5           |",
      "|" + " Brisbane  |" + " 5905 |" + " 1857594    |" + " 1146.4          |",
      "|" + " Darwin    |" + " 112  |" + " 120900     |" + " 1714.7          |");
  }
}
