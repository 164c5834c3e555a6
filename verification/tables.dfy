/** The Mutation Layer: the in-memory table and the operations that change it.
    A Go method that mutates its receiver is modelled as a function from the
    old table to the new one; one that can fail returns a `Result`. */
module Tables {
  import opened Results
  import opened Values
  import opened Layout

  /** A table: field names (duplicates allowed, order significant), rows of
      cells, alignment per field name (a missing name means Left), the sort
      key and direction, and the optional row filter. */
  datatype Table = Table(
    fields: seq<string>,
    rows: seq<Row>,
    alignments: map<string, Alignment>,
    sortBy: string,
    reverseSort: bool,
    filter: Option<Row -> bool>)

  /** The three error conditions of the mutation layer, with the numbers and
      names that appear in the Go error messages. */
  datatype TableError =
    | ColumnCountMismatch(got: nat, expected: nat)
    | IndexOutOfRange(index: int)
    | ColumnNotFound(name: string)

  /** Every row has one cell per field name. */
  predicate WellFormed(t: Table)
  {
    forall k :: 0 <= k < |t.rows| ==> |t.rows[k]| == |t.fields|
  }

  /** Everything except the field names and rows. */
  ghost predicate SameSettings(a: Table, b: Table)
  {
    a.alignments == b.alignments && a.sortBy == b.sortBy &&
    a.reverseSort == b.reverseSort && a.filter == b.filter
  }

  /** `NewTable`. */
  function NewTable(): (t: Table)
    ensures t.fields == [] && t.rows == [] && t.alignments == map[]
    ensures t.sortBy == "" && !t.reverseSort && t.filter.None?
  {
    Table([], [], map[], "", false, None)
  }

  /** `NewTableWithFields`. */
  function NewTableWithFields(fields: seq<string>): (t: Table)
    ensures t.fields == fields && t.rows == []
    ensures SameSettings(t, NewTable())
  {
    NewTable().(fields := fields)
  }

  /** `SetFieldNames`: no check against existing rows. */
  function SetFieldNames(t: Table, fields: seq<string>): (r: Table)
    ensures r.fields == fields && r.rows == t.rows && SameSettings(r, t)
  {
    t.(fields := fields)
  }

  /** `FieldNames`. */
  function FieldNames(t: Table): seq<string>
  {
    t.fields
  }

  /** The getter returns what the constructor or the setter stored. */
  lemma FieldNamesAfterSet(t: Table, fields: seq<string>)
    ensures FieldNames(NewTableWithFields(fields)) == fields
    ensures FieldNames(SetFieldNames(t, fields)) == fields
  {
  }

  /** Index of the first field equal to name, as the Go loops that `break`
      on the first match compute it; None stands for Go's -1. */
  function IndexOf(fields: seq<string>, name: string): (r: Option<nat>)
    ensures r.None? <==> name !in fields
    ensures r.Some? ==> r.value < |fields| && fields[r.value] == name
    ensures r.Some? ==> forall j :: 0 <= j < r.value ==> fields[j] != name
  {
    if |fields| == 0 then None
    else if fields[0] == name then Some(0)
    else match IndexOf(fields[1..], name)
      case None => None
      case Some(k) => Some(k + 1)
  }

  /** `AddRow`: rejected exactly when field names are set and the row has a
      different number of cells; otherwise the row is appended at the end. */
  function AddRow(t: Table, row: Row): (r: Result<Table, TableError>)
    ensures r.Err? <==> |t.fields| > 0 && |row| != |t.fields|
    ensures r.Err? ==> r.error == ColumnCountMismatch(|row|, |t.fields|)
    ensures r.Ok? ==> r.value.rows == t.rows + [row]
    ensures r.Ok? ==> r.value.fields == t.fields && SameSettings(r.value, t)
  {
    if |t.fields| > 0 && |row| != |t.fields| then Err(ColumnCountMismatch(|row|, |t.fields|))
    else Ok(t.(rows := t.rows + [row]))
  }

  /** `AddColumn`: rejected exactly when rows exist and the column has a
      different number of cells. Otherwise the name is appended to the field
      names and either each existing row gains its cell at the end, or, when
      there were no rows, one single-cell row is created per value. */
  function AddColumn(t: Table, name: string, column: seq<Value>): (r: Result<Table, TableError>)
    ensures r.Err? <==> |t.rows| > 0 && |column| != |t.rows|
    ensures r.Err? ==> r.error == ColumnCountMismatch(|column|, |t.rows|)
    ensures r.Ok? ==> r.value.fields == t.fields + [name] && SameSettings(r.value, t)
    ensures r.Ok? ==> |r.value.rows| == |column|
    ensures r.Ok? && |t.rows| == 0 ==> forall i :: 0 <= i < |column| ==> r.value.rows[i] == [column[i]]
    ensures r.Ok? && |t.rows| > 0 ==> forall i :: 0 <= i < |column| ==> r.value.rows[i] == t.rows[i] + [column[i]]
  {
    if |t.rows| > 0 && |column| != |t.rows| then Err(ColumnCountMismatch(|column|, |t.rows|))
    else
      var rows :=
        if |t.rows| == 0 then seq(|column|, i requires 0 <= i < |column| => [column[i]])
        else seq(|t.rows|, i requires 0 <= i < |t.rows| => t.rows[i] + [column[i]]);
      Ok(t.(fields := t.fields + [name], rows := rows))
  }

  /** `DelRow`: rejected exactly when the index is outside [0, row count);
      otherwise that row is removed and the others keep their order. */
  function DelRow(t: Table, index: int): (r: Result<Table, TableError>)
    ensures r.Err? <==> index < 0 || index >= |t.rows|
    ensures r.Err? ==> r.error == IndexOutOfRange(index)
    ensures r.Ok? ==> r.value.rows == t.rows[..index] + t.rows[index + 1..]
    ensures r.Ok? ==> r.value.fields == t.fields && SameSettings(r.value, t)
  {
    if index < 0 || index >= |t.rows| then Err(IndexOutOfRange(index))
    else Ok(t.(rows := t.rows[..index] + t.rows[index + 1..]))
  }

  /** The row without its cell at index k; a row too short to have one is
      left as it is. */
  function DropCell(row: Row, k: nat): (r: Row)
    ensures k < |row| ==> |r| == |row| - 1
    ensures k < |row| ==> forall j :: 0 <= j < |r| ==> r[j] == (if j < k then row[j] else row[j + 1])
    ensures k >= |row| ==> r == row
  {
    if k < |row| then row[..k] + row[k + 1..] else row
  }

  /** `DelColumn`: rejected exactly when no field has the name. Otherwise the
      first field with that name is removed, and so is the cell at its index
      in every row long enough to have one. */
  function DelColumn(t: Table, name: string): (r: Result<Table, TableError>)
    ensures r.Err? <==> name !in t.fields
    ensures r.Err? ==> r.error == ColumnNotFound(name)
    ensures r.Ok? ==> exists k :: (
      && 0 <= k < |t.fields| && t.fields[k] == name
      && (forall j :: 0 <= j < k ==> t.fields[j] != name)
      && r.value.fields == t.fields[..k] + t.fields[k + 1..]
      && |r.value.rows| == |t.rows|
      && (forall i :: 0 <= i < |t.rows| ==> r.value.rows[i] == DropCell(t.rows[i], k)))
    ensures r.Ok? ==> SameSettings(r.value, t)
  {
    match IndexOf(t.fields, name)
    case None => Err(ColumnNotFound(name))
    case Some(k) =>
      Ok(t.(fields := t.fields[..k] + t.fields[k + 1..],
            rows := seq(|t.rows|, i requires 0 <= i < |t.rows| => DropCell(t.rows[i], k))))
  }

  /** `ClearRows`: no rows, same field names. */
  function ClearRows(t: Table): (r: Table)
    ensures r.rows == [] && r.fields == t.fields && SameSettings(r, t)
  {
    t.(rows := [])
  }

  /** `Clear`: no rows and no field names. Alignments, sort key and filter
      are kept, as in the Go code. */
  function Clear(t: Table): (r: Table)
    ensures r.rows == [] && r.fields == [] && SameSettings(r, t)
  {
    t.(rows := [], fields := [])
  }

  /** The alignment the renderers use for a field name: the one set for it,
      or Left. */
  function AlignOf(t: Table, name: string): Alignment
  {
    if name in t.alignments then t.alignments[name] else Left
  }

  /** `SetAlign`: the named field takes the alignment; every other name keeps
      its own. */
  function SetAlign(t: Table, name: string, a: Alignment): (r: Table)
    ensures AlignOf(r, name) == a
    ensures forall other :: other != name ==> AlignOf(r, other) == AlignOf(t, other)
    ensures r.fields == t.fields && r.rows == t.rows
    ensures r.sortBy == t.sortBy && r.reverseSort == t.reverseSort && r.filter == t.filter
  {
    t.(alignments := t.alignments[name := a])
  }

  /** `SetAlignAll`: every current field name takes the alignment; names not
      among the fields keep theirs. */
  function SetAlignAll(t: Table, a: Alignment): (r: Table)
    ensures forall name :: name in t.fields ==> AlignOf(r, name) == a
    ensures forall name :: name !in t.fields ==> AlignOf(r, name) == AlignOf(t, name)
    ensures r.fields == t.fields && r.rows == t.rows
    ensures r.sortBy == t.sortBy && r.reverseSort == t.reverseSort && r.filter == t.filter
  {
    var names := t.alignments.Keys + set f | f in t.fields;
    t.(alignments := map name | name in names :: if name in t.fields then a else t.alignments[name])
  }

  /** `SetSortBy`. */
  function SetSortBy(t: Table, name: string, reverse: bool): (r: Table)
    ensures r.sortBy == name && r.reverseSort == reverse
    ensures r.fields == t.fields && r.rows == t.rows && r.alignments == t.alignments && r.filter == t.filter
  {
    t.(sortBy := name, reverseSort := reverse)
  }

  /** `SetRowFilter`; `None` is Go's nil filter. */
  function SetRowFilter(t: Table, filter: Option<Row -> bool>): (r: Table)
    ensures r.filter == filter
    ensures r.fields == t.fields && r.rows == t.rows && r.alignments == t.alignments
    ensures r.sortBy == t.sortBy && r.reverseSort == t.reverseSort
  {
    t.(filter := filter)
  }

  // Invariants and round trips of the mutation layer

  /** Once field names exist, AddRow keeps every row as wide as the fields. */
  lemma AddRowKeepsWellFormed(t: Table, row: Row)
    requires WellFormed(t) && |t.fields| > 0
    requires AddRow(t, row).Ok?
    ensures WellFormed(AddRow(t, row).value)
  {
    var r := AddRow(t, row).value;
    assert forall k :: 0 <= k < |r.rows| ==> r.rows[k] == if k < |t.rows| then t.rows[k] else row;
  }

  /** AddColumn on a well-formed table gives a well-formed one except in one
      case: field names exist, there are no rows, and the column is not
      empty; then the new rows have a single cell each. */
  lemma AddColumnWellFormed(t: Table, name: string, column: seq<Value>)
    requires WellFormed(t)
    requires AddColumn(t, name, column).Ok?
    ensures WellFormed(AddColumn(t, name, column).value) <==>
      (|t.rows| > 0 || |t.fields| == 0 || |column| == 0)
  {
    var r := AddColumn(t, name, column).value;
    if |t.rows| == 0 && |t.fields| > 0 && |column| > 0 {
      assert |r.rows[0]| == 1 != |r.fields|;
    }
  }

  lemma DelRowKeepsWellFormed(t: Table, index: int)
    requires WellFormed(t)
    requires DelRow(t, index).Ok?
    ensures WellFormed(DelRow(t, index).value)
  {
    var r := DelRow(t, index).value;
    assert forall k :: 0 <= k < |r.rows| ==> r.rows[k] == if k < index then t.rows[k] else t.rows[k + 1];
  }

  lemma DelColumnKeepsWellFormed(t: Table, name: string)
    requires WellFormed(t)
    requires DelColumn(t, name).Ok?
    ensures WellFormed(DelColumn(t, name).value)
  {
  }

  /** Deleting the row just added gives the table back. */
  lemma AddRowThenDelRow(t: Table, row: Row)
    requires AddRow(t, row).Ok?
    ensures DelRow(AddRow(t, row).value, |t.rows|) == Ok(t)
  {
    var r := AddRow(t, row).value;
    assert r.rows[..|t.rows|] + r.rows[|t.rows| + 1..] == t.rows;
  }

  /** Deleting a column just added, under a name not yet in use, gives the
      table back, for a well-formed table with rows. With no rows the
      single-cell rows AddColumn created stay behind: as empty rows when the
      table had no fields, and as they are otherwise, since the deleted index
      is then past their one cell. */
  lemma AddColumnThenDelColumn(t: Table, name: string, column: seq<Value>)
    requires WellFormed(t) && |t.rows| > 0
    requires name !in t.fields
    requires AddColumn(t, name, column).Ok?
    ensures DelColumn(AddColumn(t, name, column).value, name) == Ok(t)
  {
    var r := AddColumn(t, name, column).value;
    DelAppendedColumn(t, r, name, column);
  }

  lemma DelAppendedColumn(t: Table, r: Table, name: string, column: seq<Value>)
    requires WellFormed(t) && name !in t.fields
    requires r.fields == t.fields + [name] && SameSettings(r, t)
    requires |r.rows| == |t.rows| == |column|
    requires forall i :: 0 <= i < |t.rows| ==> r.rows[i] == t.rows[i] + [column[i]]
    ensures DelColumn(r, name) == Ok(t)
  {
    var n := |t.fields|;
    IndexOfAppended(t.fields, name);
    DelColumnAt(r, name, n);
    DropAppendedCells(t.rows, r.rows, column, n);
    assert r.fields[..n] + r.fields[n + 1..] == t.fields;
    assert DelColumn(r, name).value.rows == t.rows;
  }

  lemma DropAppendedCells(rows: seq<Row>, longer: seq<Row>, column: seq<Value>, n: nat)
    requires |longer| == |rows| == |column|
    requires forall i :: 0 <= i < |rows| ==> |rows[i]| == n && longer[i] == rows[i] + [column[i]]
    ensures forall i :: 0 <= i < |rows| ==> DropCell(longer[i], n) == rows[i]
  {
    forall i | 0 <= i < |rows|
      ensures DropCell(longer[i], n) == rows[i]
    {
      assert (rows[i] + [column[i]])[..n] == rows[i];
    }
  }

  /** DelColumn once the index of the name is known. */
  lemma DelColumnAt(t: Table, name: string, k: nat)
    requires IndexOf(t.fields, name) == Some(k)
    ensures DelColumn(t, name).Ok?
    ensures DelColumn(t, name).value.fields == t.fields[..k] + t.fields[k + 1..]
    ensures |DelColumn(t, name).value.rows| == |t.rows|
    ensures forall i :: 0 <= i < |t.rows| ==> DelColumn(t, name).value.rows[i] == DropCell(t.rows[i], k)
  {
  }

  lemma IndexOfAppended(fields: seq<string>, name: string)
    requires name !in fields
    ensures IndexOf(fields + [name], name) == Some(|fields|)
  {
    var k := IndexOf(fields + [name], name).value;
    assert (fields + [name])[|fields|] == name;
  }
}
