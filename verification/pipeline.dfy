/** The Query Pipeline: the rows a width-based renderer works on. The table's
    rows are filtered by the row predicate (when one is set) and then sorted
    by the text of one key cell (when the sort field names an existing
    field). The table itself is never changed. */
module Pipeline {
  import opened Results
  import opened Text
  import opened Values
  import opened Layout
  import opened Tables

  /** a occurs in b in order, possibly with gaps (greedy matching decides
      this exactly). */
  ghost predicate IsSubsequence(a: seq<Row>, b: seq<Row>)
    decreases |b|
  {
    if |a| == 0 then true
    else if |b| == 0 then false
    else if a[0] == b[0] then IsSubsequence(a[1..], b[1..])
    else IsSubsequence(a, b[1..])
  }

  /** The filter loop: the rows the predicate keeps, in their original order,
      each as often as it occurs. */
  function FilterRows(rows: seq<Row>, keep: Row -> bool): (r: seq<Row>)
    ensures forall k :: 0 <= k < |r| ==> keep(r[k])
    ensures forall x :: multiset(r)[x] == if keep(x) then multiset(rows)[x] else 0
    ensures IsSubsequence(r, rows)
  {
    if |rows| == 0 then []
    else
      var rest := FilterRows(rows[1..], keep);
      if keep(rows[0]) then
        FilterKeepsHead(rows, keep, rest);
        [rows[0]] + rest
      else
        FilterDropsHead(rows, keep, rest);
        rest
  }

  lemma FilterKeepsHead(rows: seq<Row>, keep: Row -> bool, rest: seq<Row>)
    requires |rows| > 0 && keep(rows[0])
    requires forall x :: multiset(rest)[x] == if keep(x) then multiset(rows[1..])[x] else 0
    requires IsSubsequence(rest, rows[1..])
    ensures forall x :: multiset([rows[0]] + rest)[x] == if keep(x) then multiset(rows)[x] else 0
    ensures IsSubsequence([rows[0]] + rest, rows)
  {
    assert rows == [rows[0]] + rows[1..];
    assert multiset(rows) == multiset{rows[0]} + multiset(rows[1..]);
    assert ([rows[0]] + rest)[1..] == rest;
  }

  lemma FilterDropsHead(rows: seq<Row>, keep: Row -> bool, rest: seq<Row>)
    requires |rows| > 0 && !keep(rows[0])
    requires forall k :: 0 <= k < |rest| ==> keep(rest[k])
    requires forall x :: multiset(rest)[x] == if keep(x) then multiset(rows[1..])[x] else 0
    requires IsSubsequence(rest, rows[1..])
    ensures forall x :: multiset(rest)[x] == if keep(x) then multiset(rows)[x] else 0
    ensures IsSubsequence(rest, rows)
  {
    MultisetOfCons(rows);
    SubsequenceSkip(rest, rows);
  }

  lemma MultisetOfCons(rows: seq<Row>)
    requires |rows| > 0
    ensures multiset(rows) == multiset{rows[0]} + multiset(rows[1..])
  {
    assert rows == [rows[0]] + rows[1..];
  }

  lemma SubsequenceSkip(a: seq<Row>, b: seq<Row>)
    requires |b| > 0 && IsSubsequence(a, b[1..])
    requires |a| > 0 ==> a[0] != b[0]
    ensures IsSubsequence(a, b)
  {
  }

  /** The text the sort compares: `fmt.Sprintf("%v", row[k])`. */
  function KeyText(row: Row, k: nat): string
    requires k < |row|
  {
    Format(row[k])
  }

  /** The `less` closure handed to `sort.Slice`. */
  predicate Before(a: Row, b: Row, k: nat, reverse: bool)
    requires k < |a| && k < |b|
  {
    if reverse then Less(KeyText(b, k), KeyText(a, k)) else Less(KeyText(a, k), KeyText(b, k))
  }

  predicate AllHaveKey(rows: seq<Row>, k: nat)
  {
    forall x :: x in rows ==> k < |x|
  }

  /** Two keyed rows in the order a sorted sequence asks for: by key text,
      non-decreasing, or non-increasing when reverse. */
  predicate InOrder(a: Row, b: Row, k: nat, reverse: bool)
  {
    && k < |a| && k < |b|
    && if reverse then LessEq(KeyText(b, k), KeyText(a, k)) else LessEq(KeyText(a, k), KeyText(b, k))
  }

  /** Every pair of rows, in sequence order, is keyed and in order. */
  predicate SortedByKey(rows: seq<Row>, k: nat, reverse: bool)
  {
    forall i, j :: 0 <= i < j < |rows| ==> InOrder(rows[i], rows[j], k, reverse)
  }

  lemma InOrderTransitive(a: Row, b: Row, c: Row, k: nat, reverse: bool)
    requires k < |a| && k < |b| && k < |c|
    requires InOrder(a, b, k, reverse) && InOrder(b, c, k, reverse)
    ensures InOrder(a, c, k, reverse)
  {
    if reverse {
      LessEqTransitive(KeyText(c, k), KeyText(b, k), KeyText(a, k));
    } else {
      LessEqTransitive(KeyText(a, k), KeyText(b, k), KeyText(c, k));
    }
  }

  /** A row that is strictly before another is in order with it, and one
      that is not before another comes no later than it. */
  lemma BeforeInOrder(a: Row, b: Row, k: nat, reverse: bool)
    requires k < |a| && k < |b|
    ensures Before(a, b, k, reverse) ==> InOrder(a, b, k, reverse)
    ensures !Before(a, b, k, reverse) ==> InOrder(b, a, k, reverse)
  {
    if Before(a, b, k, reverse) {
      if reverse {
        LessAsymmetric(KeyText(b, k), KeyText(a, k));
      } else {
        LessAsymmetric(KeyText(a, k), KeyText(b, k));
      }
    }
  }

  /** One step of an insertion sort: x placed after the leading rows that are
      strictly before it. */
  function Insert(x: Row, s: seq<Row>, k: nat, reverse: bool): (r: seq<Row>)
    requires k < |x| && AllHaveKey(s, k) && SortedByKey(s, k, reverse)
    ensures multiset(r) == multiset(s) + multiset{x}
    ensures AllHaveKey(r, k)
    ensures SortedByKey(r, k, reverse)
  {
    if |s| == 0 then [x]
    else if Before(s[0], x, k, reverse) then
      var rest := Insert(x, s[1..], k, reverse);
      InsertAfterHead(x, s, rest, k, reverse);
      [s[0]] + rest
    else
      InsertAtHead(x, s, k, reverse);
      [x] + s
  }

  lemma InsertAtHead(x: Row, s: seq<Row>, k: nat, reverse: bool)
    requires k < |x| && AllHaveKey(s, k) && SortedByKey(s, k, reverse)
    requires |s| > 0 && !Before(s[0], x, k, reverse)
    ensures multiset([x] + s) == multiset(s) + multiset{x}
    ensures AllHaveKey([x] + s, k)
    ensures SortedByKey([x] + s, k, reverse)
  {
    var r := [x] + s;
    assert s[0] in s;
    BeforeInOrder(s[0], x, k, reverse);
    forall i, j | 0 <= i < j < |r|
      ensures InOrder(r[i], r[j], k, reverse)
    {
      assert s[j - 1] in s;
      if i == 0 {
        if j > 1 {
          assert InOrder(s[0], s[j - 1], k, reverse);
          InOrderTransitive(x, s[0], s[j - 1], k, reverse);
        }
      } else {
        assert s[i - 1] in s;
      }
    }
  }

  lemma InsertAfterHead(x: Row, s: seq<Row>, rest: seq<Row>, k: nat, reverse: bool)
    requires k < |x| && AllHaveKey(s, k) && SortedByKey(s, k, reverse)
    requires |s| > 0 && Before(s[0], x, k, reverse)
    requires multiset(rest) == multiset(s[1..]) + multiset{x}
    requires AllHaveKey(rest, k) && SortedByKey(rest, k, reverse)
    ensures multiset([s[0]] + rest) == multiset(s) + multiset{x}
    ensures AllHaveKey([s[0]] + rest, k)
    ensures SortedByKey([s[0]] + rest, k, reverse)
  {
    var r := [s[0]] + rest;
    assert s == [s[0]] + s[1..];
    assert s[0] in s;
    BeforeInOrder(s[0], x, k, reverse);
    forall i, j | 0 <= i < j < |r|
      ensures InOrder(r[i], r[j], k, reverse)
    {
      var y := rest[j - 1];
      assert y in rest;
      if i == 0 {
        assert y in multiset(rest);
        if y != x {
          assert y in multiset(s[1..]);
          var m :| 0 <= m < |s[1..]| && s[1..][m] == y;
          assert s[m + 1] == y;
        }
      } else {
        assert rest[i - 1] in rest;
      }
    }
  }

  /** Rows with the same key text are the same row. */
  predicate KeysIdentifyRows(rows: seq<Row>, k: nat)
  {
    forall x, y :: x in rows && y in rows && k < |x| && k < |y| && KeyText(x, k) == KeyText(y, k) ==> x == y
  }

  /** Two keyed rows in order both ways have the same key text. */
  lemma InOrderBothWays(a: Row, b: Row, k: nat, reverse: bool)
    requires k < |a| && k < |b|
    requires InOrder(a, b, k, reverse) && InOrder(b, a, k, reverse)
    ensures KeyText(a, k) == KeyText(b, k)
  {
    LessEqAntisymmetric(KeyText(a, k), KeyText(b, k));
  }

  /** The first row of a sorted sequence is in order with every row of it. */
  lemma SortedHeadFirst(a: seq<Row>, x: Row, k: nat, reverse: bool)
    requires SortedByKey(a, k, reverse) && x in a && k < |x|
    ensures k < |a[0]| && InOrder(a[0], x, k, reverse)
  {
    var i :| 0 <= i < |a| && a[i] == x;
    if i == 0 {
      LessEqIsLessOrEqual(KeyText(x, k), KeyText(x, k));
    }
  }

  lemma SortedTail(a: seq<Row>, k: nat, reverse: bool)
    requires SortedByKey(a, k, reverse) && |a| > 0
    ensures SortedByKey(a[1..], k, reverse)
  {
    var t := a[1..];
    forall i, j | 0 <= i < j < |t|
      ensures InOrder(t[i], t[j], k, reverse)
    {
      assert t[i] == a[i + 1] && t[j] == a[j + 1];
    }
  }

  /** Two sorted arrangements of one multiset start with the same row when
      rows are identified by their keys. */
  lemma SortedHeadsAgree(a: seq<Row>, b: seq<Row>, k: nat, reverse: bool)
    requires SortedByKey(a, k, reverse) && SortedByKey(b, k, reverse)
    requires multiset(a) == multiset(b) && |a| > 0
    requires KeysIdentifyRows(a, k)
    ensures |b| > 0 && a[0] == b[0]
  {
    assert a[0] in multiset(b);
    assert b[0] in multiset(a);
    assert a[0] in a;
    var x, y := a[0], b[0];
    // Every row of a sorted sequence of two or more rows has the key; a
    // single row may not, and then it is the only row of both.
    if |a| == 1 {
      assert multiset(a) == multiset{x};
      assert |b| == 1;
    } else {
      assert k < |a[0]| && k < |a[1]|;
      assert |b| == |multiset(b)| == |a|;
      assert k < |b[0]| && k < |b[1]|;
      SortedHeadFirst(a, y, k, reverse);
      SortedHeadFirst(b, x, k, reverse);
      InOrderBothWays(x, y, k, reverse);
    }
  }

  lemma SameTails(a: seq<Row>, b: seq<Row>)
    requires multiset(a) == multiset(b) && |a| > 0 && |b| > 0 && a[0] == b[0]
    ensures multiset(a[1..]) == multiset(b[1..])
    ensures forall x :: x in a[1..] ==> x in a
  {
    assert a == [a[0]] + a[1..] && b == [b[0]] + b[1..];
    assert multiset(a) == multiset{a[0]} + multiset(a[1..]);
    assert multiset(b) == multiset{b[0]} + multiset(b[1..]);
    assert multiset(a[1..]) == multiset(a) - multiset{a[0]};
    assert multiset(b[1..]) == multiset(b) - multiset{b[0]};
  }

  /** When no two different rows share a key text, there is only one sorted
      arrangement of a multiset of rows: the order in which an unstable sort
      leaves rows of equal key cannot show. */
  lemma {:induction false} SortedUnique(a: seq<Row>, b: seq<Row>, k: nat, reverse: bool)
    requires SortedByKey(a, k, reverse) && SortedByKey(b, k, reverse)
    requires multiset(a) == multiset(b)
    requires KeysIdentifyRows(a, k)
    ensures a == b
    decreases |a|
  {
    if |a| == 0 {
      assert |b| == |multiset(b)| == 0;
    } else {
      SortedHeadsAgree(a, b, k, reverse);
      SameTails(a, b);
      SortedTail(a, k, reverse);
      SortedTail(b, k, reverse);
      SortedUnique(a[1..], b[1..], k, reverse);
    }
  }

  lemma KeyedTail(rows: seq<Row>, k: nat)
    requires AllHaveKey(rows, k) && |rows| > 0
    ensures AllHaveKey(rows[1..], k)
  {
    forall x | x in rows[1..]
      ensures k < |x|
    {
      var i :| 0 <= i < |rows[1..]| && rows[1..][i] == x;
      assert rows[i + 1] == x;
    }
  }

  lemma KeyedPermutation(a: seq<Row>, b: seq<Row>, k: nat)
    requires AllHaveKey(a, k) && multiset(a) == multiset(b)
    ensures AllHaveKey(b, k)
  {
    forall x | x in b
      ensures k < |x|
    {
      assert x in multiset(b);
    }
  }

  /** The model's `sort.Slice`: an insertion sort with the same `less`. Go's
      sort is not stable, so only "a sorted permutation" is promised. The
      precondition is the one under which Go's comparisons do not index past
      the end of a row: with two or more rows every row is compared. */
  function SortRows(rows: seq<Row>, k: nat, reverse: bool): (r: seq<Row>)
    requires |rows| < 2 || AllHaveKey(rows, k)
    ensures multiset(r) == multiset(rows)
    ensures SortedByKey(r, k, reverse)
  {
    if |rows| <= 1 then rows
    else
      assert rows == [rows[0]] + rows[1..];
      assert multiset(rows) == multiset(rows[1..]) + multiset{rows[0]};
      assert rows[0] in rows;
      KeyedTail(rows, k);
      var rest := SortRows(rows[1..], k, reverse);
      KeyedPermutation(rows[1..], rest, k);
      Insert(rows[0], rest, k, reverse)
  }

  /** Index of the sort field: none when the sort field is empty or names no
      field; otherwise the first field with that name. */
  function SortIndex(t: Table): (r: Option<nat>)
    ensures r.None? <==> t.sortBy == "" || t.sortBy !in t.fields
    ensures r.Some? ==> r.value < |t.fields| && t.fields[r.value] == t.sortBy
    ensures r.Some? ==> forall j :: 0 <= j < r.value ==> t.fields[j] != t.sortBy
  {
    if t.sortBy == "" then None else IndexOf(t.fields, t.sortBy)
  }

  /** The rows after the filter step. */
  function Filtered(t: Table): seq<Row>
  {
    match t.filter
    case None => t.rows
    case Some(keep) => FilterRows(t.rows, keep)
  }

  /** The sort step does not fault. */
  predicate SortSafe(t: Table)
  {
    match SortIndex(t)
    case None => true
    case Some(k) => |Filtered(t)| < 2 || AllHaveKey(Filtered(t), k)
  }

  /** The working rows: filtered, then sorted when a sort field is active.
      They are a permutation of the filtered rows; sorted by the key text
      when the sort field exists; in stored order when it is empty or
      unknown. */
  function WorkingRows(t: Table): (r: seq<Row>)
    requires SortSafe(t)
    ensures multiset(r) == multiset(Filtered(t))
    ensures SortIndex(t).None? ==> r == Filtered(t)
    ensures SortIndex(t).Some? ==> SortedByKey(r, SortIndex(t).value, t.reverseSort)
  {
    match SortIndex(t)
    case None => Filtered(t)
    case Some(k) => SortRows(Filtered(t), k, t.reverseSort)
  }

  /** A row is a working row exactly when it is a stored row the filter (if
      any) keeps, and it occurs as often as among the stored rows. */
  lemma WorkingRowsMembers(t: Table, x: Row)
    requires SortSafe(t)
    ensures multiset(WorkingRows(t))[x] ==
      if t.filter.None? || t.filter.value(x) then multiset(t.rows)[x] else 0
    ensures x in WorkingRows(t) <==> x in t.rows && (t.filter.None? || t.filter.value(x))
  {
    var w := WorkingRows(t);
    assert x in w <==> x in multiset(w);
    assert x in t.rows <==> x in multiset(t.rows);
  }

  /** The Go renderers do not fault on this table: with fields present, the
      sort step is safe and no working row has more cells than there are
      fields (a longer row would index past the width and field slices). */
  predicate Renderable(t: Table)
  {
    |t.fields| == 0 || (SortSafe(t) && RowsFit(Filtered(t), |t.fields|))
  }

  lemma WorkingRowsFit(t: Table)
    requires SortSafe(t) && RowsFit(Filtered(t), |t.fields|)
    ensures RowsFit(WorkingRows(t), |t.fields|)
  {
    var w := WorkingRows(t);
    var f := Filtered(t);
    forall k | 0 <= k < |w|
      ensures |w[k]| <= |t.fields|
    {
      assert w[k] in multiset(w);
      assert w[k] in f;
      var j :| 0 <= j < |f| && f[j] == w[k];
    }
  }

  /** Sorting changes the order of the rows but not the column widths. */
  lemma WorkingRowsKeepWidths(t: Table, m: Measure)
    requires SortSafe(t) && RowsFit(Filtered(t), |t.fields|)
    ensures RowsFit(WorkingRows(t), |t.fields|)
    ensures ColumnWidths(m, t.fields, WorkingRows(t)) == ColumnWidths(m, t.fields, Filtered(t))
  {
    WorkingRowsFit(t);
    var w := WorkingRows(t);
    var f := Filtered(t);
    forall x
      ensures x in w <==> x in f
    {
      assert x in w <==> x in multiset(w);
      assert x in f <==> x in multiset(f);
    }
    ColumnWidthsSameRows(m, t.fields, w, f);
  }

  /** With a sort field whose key text tells the filtered rows apart, the
      working rows are the one sorted arrangement of the filtered rows; the
      instability of Go's sort makes no difference to the output. */
  lemma WorkingRowsDetermined(t: Table, w: seq<Row>)
    requires SortSafe(t) && SortIndex(t).Some?
    requires KeysIdentifyRows(Filtered(t), SortIndex(t).value)
    requires multiset(w) == multiset(Filtered(t)) && SortedByKey(w, SortIndex(t).value, t.reverseSort)
    ensures WorkingRows(t) == w
  {
    var k := SortIndex(t).value;
    var r := WorkingRows(t);
    assert KeysIdentifyRows(r, k) by {
      forall x | x in r
        ensures x in Filtered(t)
      {
        assert x in multiset(r);
      }
    }
    SortedUnique(r, w, k, t.reverseSort);
  }

  /** A well-formed table (every row as wide as the fields) renders without
      fault. */
  lemma WellFormedIsRenderable(t: Table)
    requires WellFormed(t)
    ensures Renderable(t)
  {
    var f := Filtered(t);
    forall x | x in f
      ensures |x| == |t.fields|
    {
      assert x in multiset(f);
      WorkingRowsMembersFiltered(t, x);
      var j :| 0 <= j < |t.rows| && t.rows[j] == x;
    }
    if |t.fields| > 0 {
      assert RowsFit(f, |t.fields|) by {
        forall k | 0 <= k < |f|
          ensures |f[k]| <= |t.fields|
        {
          assert f[k] in f;
        }
      }
    }
  }

  lemma WorkingRowsMembersFiltered(t: Table, x: Row)
    requires x in multiset(Filtered(t))
    ensures x in t.rows
  {
    if t.filter.Some? {
      assert multiset(t.rows)[x] > 0;
    }
  }
}
