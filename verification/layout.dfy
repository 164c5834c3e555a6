/** The Layout Engine: display width of text, padding a cell to a column
    width under an alignment, and the per-column widths of a table.

    Width is an additive measure chosen by the renderer: the ASCII renderer
    uses Go's `len`, the number of UTF-8 bytes, and the Unicode renderer uses
    `runeWidth`, the number of code points. Every lemma below is stated for an
    arbitrary measure and so covers both renderers. */
module Layout {
  import opened Text
  import opened Values

  datatype Alignment = Left | Center | Right

  datatype Measure = Bytes | Runes

  /** Number of bytes in the UTF-8 encoding of one code point. */
  function Utf8Len(c: char): nat
  {
    if c as int < 0x80 then 1
    else if c as int < 0x800 then 2
    else if c as int < 0x1_0000 then 3
    else 4
  }

  /** Go's `len(s)`: the UTF-8 byte length. */
  function ByteLen(s: string): nat
  {
    if |s| == 0 then 0 else Utf8Len(s[0]) + ByteLen(s[1..])
  }

  /** `runeWidth(s)`, that is `len([]rune(s))`: the number of code points. */
  function RuneWidth(s: string): nat
  {
    |s|
  }

  function Width(m: Measure, s: string): nat
  {
    match m
    case Bytes => ByteLen(s)
    case Runes => RuneWidth(s)
  }

  lemma {:induction false} ByteLenAppend(a: string, b: string)
    ensures ByteLen(a + b) == ByteLen(a) + ByteLen(b)
    decreases |a|
  {
    if |a| == 0 {
      assert a + b == b;
    } else {
      assert (a + b)[0] == a[0];
      assert (a + b)[1..] == a[1..] + b;
      ByteLenAppend(a[1..], b);
    }
  }

  /** Both measures are additive over concatenation. */
  lemma WidthAppend(m: Measure, a: string, b: string)
    ensures Width(m, a + b) == Width(m, a) + Width(m, b)
  {
    if m == Bytes {
      ByteLenAppend(a, b);
    }
  }

  lemma {:induction false} ByteLenAscii(s: string)
    requires forall i :: 0 <= i < |s| ==> s[i] as int < 0x80
    ensures ByteLen(s) == |s|
    decreases |s|
  {
    if |s| > 0 {
      ByteLenAscii(s[1..]);
    }
  }

  /** On ASCII text the two measures agree: one byte per code point. */
  lemma WidthAscii(m: Measure, s: string)
    requires forall i :: 0 <= i < |s| ==> s[i] as int < 0x80
    ensures Width(m, s) == |s|
  {
    ByteLenAscii(s);
  }

  lemma WidthSpaces(m: Measure, n: nat)
    ensures Width(m, Spaces(n)) == n
  {
    WidthAscii(m, Spaces(n));
  }

  /** `padAlign` (measure `Bytes`) and `padAlignUnicode` (measure `Runes`):
      text already at least w wide comes back as it is; shorter text is
      brought to width exactly w by spaces, added on the right for Left, on
      the left for Right, and split with the odd one on the right for Center. */
  function Pad(m: Measure, s: string, w: nat, a: Alignment): (r: string)
    ensures Width(m, s) >= w ==> r == s
    ensures Width(m, s) < w ==> Width(m, r) == w
    ensures Width(m, s) < w && a == Left ==> r == s + Spaces(w - Width(m, s))
    ensures Width(m, s) < w && a == Right ==> r == Spaces(w - Width(m, s)) + s
    ensures Width(m, s) < w && a == Center ==>
      var pad := w - Width(m, s);
      r == Spaces(pad / 2) + s + Spaces(pad - pad / 2)
  {
    var pad := w - Width(m, s);
    if pad <= 0 then s
    else
      match a
      case Right =>
        WidthAppend(m, Spaces(pad), s);
        WidthSpaces(m, pad);
        Spaces(pad) + s
      case Center =>
        var left := pad / 2;
        var right := pad - left;
        WidthAppend(m, Spaces(left), s);
        WidthAppend(m, Spaces(left) + s, Spaces(right));
        WidthSpaces(m, left);
        WidthSpaces(m, right);
        Spaces(left) + s + Spaces(right)
      case Left =>
        WidthAppend(m, s, Spaces(pad));
        WidthSpaces(m, pad);
        s + Spaces(pad)
  }

  /** `padString`: left-aligned padding by byte length. */
  function PadString(s: string, w: nat): (r: string)
    ensures r == Pad(Bytes, s, w, Left)
  {
    if ByteLen(s) >= w then s else s + Spaces(w - ByteLen(s))
  }

  /** Center padding is balanced: the right side gets the same number of
      spaces as the left, or one more. */
  lemma PadCenterBalanced(m: Measure, s: string, w: nat)
    requires Width(m, s) < w
    ensures exists l: nat, rt: nat ::
      Pad(m, s, w, Center) == Spaces(l) + s + Spaces(rt) && l <= rt <= l + 1
  {
    var pad := w - Width(m, s);
    assert Pad(m, s, w, Center) == Spaces(pad / 2) + s + Spaces(pad - pad / 2);
  }

  /** Dropping leading and trailing spaces. */
  function TrimSpaces(s: string): string
  {
    TrimLeadingSpaces(TrimTrailingSpaces(s))
  }

  function TrimLeadingSpaces(s: string): string
  {
    if |s| > 0 && s[0] == ' ' then TrimLeadingSpaces(s[1..]) else s
  }

  function TrimTrailingSpaces(s: string): string
  {
    if |s| > 0 && s[|s| - 1] == ' ' then TrimTrailingSpaces(s[..|s| - 1]) else s
  }

  lemma {:induction false} TrimTrailingAfterSpaces(s: string, n: nat)
    ensures TrimTrailingSpaces(s + Spaces(n)) == TrimTrailingSpaces(s)
    decreases n
  {
    if n > 0 {
      var t := s + Spaces(n);
      assert t[..|t| - 1] == s + Spaces(n - 1);
      TrimTrailingAfterSpaces(s, n - 1);
    } else {
      assert s + Spaces(0) == s;
    }
  }

  lemma {:induction false} TrimLeadingBeforeSpaces(s: string, n: nat)
    ensures TrimLeadingSpaces(Spaces(n) + s) == TrimLeadingSpaces(s)
    decreases n
  {
    if n > 0 {
      var t := Spaces(n) + s;
      assert t[1..] == Spaces(n - 1) + s;
      TrimLeadingBeforeSpaces(s, n - 1);
    } else {
      assert Spaces(0) + s == s;
    }
  }

  /** Padding is undone by trimming: text that neither starts nor ends with a
      space is recovered from its padded form, whatever the width and
      alignment. */
  lemma PadTrimRoundTrip(m: Measure, s: string, w: nat, a: Alignment)
    requires |s| == 0 || (s[0] != ' ' && s[|s| - 1] != ' ')
    ensures TrimSpaces(Pad(m, s, w, a)) == s
  {
    if Width(m, s) < w {
      var pad := w - Width(m, s);
      if a == Left {
        TrimSurrounded(s, 0, pad);
      } else if a == Right {
        TrimSurrounded(s, pad, 0);
      } else {
        TrimSurrounded(s, pad / 2, pad - pad / 2);
      }
    }
  }

  lemma TrimSurrounded(s: string, l: nat, rt: nat)
    requires |s| == 0 || (s[0] != ' ' && s[|s| - 1] != ' ')
    ensures TrimSpaces(Spaces(l) + s + Spaces(rt)) == s
    ensures l == 0 ==> TrimSpaces(s + Spaces(rt)) == s
    ensures rt == 0 ==> TrimSpaces(Spaces(l) + s) == s
  {
    assert Spaces(0) + s == s;
    assert Spaces(l) + s + Spaces(0) == Spaces(l) + s;
    TrimTrailingAfterSpaces(Spaces(l) + s, rt);
    if |s| == 0 {
      assert Spaces(l) + s == s + Spaces(l);
      TrimTrailingAfterSpaces(s, l);
    } else {
      assert TrimTrailingSpaces(Spaces(l) + s) == Spaces(l) + s;
      TrimLeadingBeforeSpaces(s, l);
    }
  }

  /** The padded cell of `padAlignUnicode`, stated in code points alone. */
  lemma PadUnicodeCodePoints(s: string, w: nat, a: Alignment)
    ensures |s| >= w ==> Pad(Runes, s, w, a) == s
    ensures |s| < w ==> |Pad(Runes, s, w, a)| == w
    ensures |s| < w ==> exists l: nat :: l + |s| <= w && Pad(Runes, s, w, a) == Spaces(l) + s + Spaces(w - |s| - l)
  {
    if |s| < w {
      var pad := w - |s|;
      match a
      case Left =>
        assert Pad(Runes, s, w, a) == Spaces(0) + s + Spaces(pad);
      case Right =>
        assert Pad(Runes, s, w, a) == Spaces(pad) + s + Spaces(0);
      case Center =>
        assert Pad(Runes, s, w, a) == Spaces(pad / 2) + s + Spaces(pad - pad / 2);
    }
  }

  /** Display width of a cell's text. */
  function CellWidth(m: Measure, v: Value): nat
  {
    Width(m, Format(v))
  }

  predicate RowsFit(rows: seq<Row>, n: nat)
  {
    forall k :: 0 <= k < |rows| ==> |rows[k]| <= n
  }

  /** The first pass of the width computation: the width of each header. */
  function HeaderWidths(m: Measure, fields: seq<string>): (ws: seq<nat>)
    ensures |ws| == |fields|
    ensures forall i :: 0 <= i < |fields| ==> ws[i] == Width(m, fields[i])
  {
    seq(|fields|, i requires 0 <= i < |fields| => Width(m, fields[i]))
  }

  /** One row of the second pass: a column widens to a wider cell. */
  function Widen(m: Measure, ws: seq<nat>, row: Row): seq<nat>
    requires |row| <= |ws|
  {
    seq(|ws|, i requires 0 <= i < |ws| =>
      if i < |row| && CellWidth(m, row[i]) > ws[i] then CellWidth(m, row[i]) else ws[i])
  }

  /** Per-column widths over the header and the given rows (the rows seen by
      the renderer, after filtering and sorting). Each width is the largest
      width among the header and the cells of that column: no cell is wider
      than its column, and each width is reached by the header or some cell. */
  function ColumnWidths(m: Measure, fields: seq<string>, rows: seq<Row>): (ws: seq<nat>)
    requires RowsFit(rows, |fields|)
    ensures |ws| == |fields|
    ensures forall i :: 0 <= i < |fields| ==> Width(m, fields[i]) <= ws[i]
    ensures forall k, i :: 0 <= k < |rows| && 0 <= i < |rows[k]| ==> CellWidth(m, rows[k][i]) <= ws[i]
    ensures forall i :: 0 <= i < |fields| ==>
      ws[i] == Width(m, fields[i]) ||
      exists k :: 0 <= k < |rows| && i < |rows[k]| && ws[i] == CellWidth(m, rows[k][i])
    decreases |rows|
  {
    if |rows| == 0 then HeaderWidths(m, fields)
    else
      var prefix := rows[..|rows| - 1];
      var last := rows[|rows| - 1];
      var before := ColumnWidths(m, fields, prefix);
      assert forall k :: 0 <= k < |prefix| ==> prefix[k] == rows[k];
      Widen(m, before, last)
  }

  /** When no cell is wider than its header, the headers alone set the
      widths. */
  lemma HeadersDominate(m: Measure, fields: seq<string>, rows: seq<Row>)
    requires RowsFit(rows, |fields|)
    requires forall k, i :: 0 <= k < |rows| && 0 <= i < |rows[k]| ==> CellWidth(m, rows[k][i]) <= Width(m, fields[i])
    ensures ColumnWidths(m, fields, rows) == HeaderWidths(m, fields)
  {
  }

  /** The widths depend only on which rows occur, not on their order or
      repetition: in particular sorting the rows leaves them unchanged. */
  lemma ColumnWidthsSameRows(m: Measure, fields: seq<string>, a: seq<Row>, b: seq<Row>)
    requires RowsFit(a, |fields|) && RowsFit(b, |fields|)
    requires forall r :: r in a <==> r in b
    ensures ColumnWidths(m, fields, a) == ColumnWidths(m, fields, b)
  {
    var wa := ColumnWidths(m, fields, a);
    var wb := ColumnWidths(m, fields, b);
    forall i | 0 <= i < |fields|
      ensures wa[i] <= wb[i]
    {
      if wa[i] != Width(m, fields[i]) {
        var k :| 0 <= k < |a| && i < |a[k]| && wa[i] == CellWidth(m, a[k][i]);
        assert a[k] in b;
        var k' :| 0 <= k' < |b| && b[k'] == a[k];
      }
    }
    forall i | 0 <= i < |fields|
      ensures wb[i] <= wa[i]
    {
      if wb[i] != Width(m, fields[i]) {
        var k :| 0 <= k < |b| && i < |b[k]| && wb[i] == CellWidth(m, b[k][i]);
        assert b[k] in a;
        var k' :| 0 <= k' < |a| && a[k'] == b[k];
      }
    }
  }
}
