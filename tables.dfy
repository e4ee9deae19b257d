/** processTableCell and countCellsInCurrentRow: the linear encoding of table rows. */
module Tables {
  import opened JavaString
  import opened CellText
  import opened Document

  /** Written before the first cell of a table. */
  const TableMarker := "\nTable:\n"

  /** Written before every cell. */
  const CellSeparator := "||"

  /** The column count every completed row is padded to. */
  const ExpectedCells := 10

  /** One padding field, appended as "||" and then "-". */
  const PaddingField := "||-"

  /** Written at the end of every completed row. */
  const RowEnd := "||+++\n"

  /** Written when the cell's try block raises. */
  const ErrorSentinel := "||ERROR||+++\n"

  /** The text after the last line feed. */
  function CurrentRow(s: string): string {
    s[LastIndexOf(s, '\n') + 1..]
  }

  /** The current row is the final stretch of the text that holds no line feed, starting
      at the text's start or right after its last line feed. */
  lemma CurrentRowIsLastLine(s: string)
    ensures var r := CurrentRow(s);
      && |r| <= |s| && r == s[|s| - |r|..] && '\n' !in r
      && (|r| == |s| || s[|s| - |r| - 1] == '\n')
  {
    LastIndexOfSpec(s, '\n');
    var r := CurrentRow(s);
    var k := LastIndexOf(s, '\n');
    forall i | 0 <= i < |r| ensures r[i] != '\n' {
      assert r[i] == s[k + 1 + i];
    }
  }

  /** countCellsInCurrentRow: the '|' chars after the last line feed, halved. */
  function CountCellsInCurrentRow(s: string): nat {
    Count(CurrentRow(s), '|') / 2
  }

  /** The padding loop: one field per missing cell up to ExpectedCells, none when the row
      already has that many. */
  function Padding(currentCells: int): string {
    if currentCells < ExpectedCells then Repeat(PaddingField, ExpectedCells - currentCells) else []
  }

  /** The table marker when the paragraph opens a table. */
  function Marker(p: Paragraph): string {
    if p.isFirstCellInTable then TableMarker else []
  }

  /** The separator and the cell's text as processCellContent normalised it. */
  function CellField(text: string): string {
    CellSeparator + text
  }

  /** What processTableCell appends for a paragraph when the builder so far holds `out`;
      `text` is processCellContent's result for the paragraph's text. */
  function TableCellSegment(out: string, p: Paragraph, text: string): string {
    match p.cellFault
    case TextFails => ErrorSentinel
    case Intact =>
      var cell := Marker(p) + CellField(text);
      cell + RowClose(out + cell, p)
  }

  /** After the cell of a row end: the padding, counted on the builder holding the cell,
      and the row end. Nothing after other cells. */
  function RowClose(withCell: string, p: Paragraph): string {
    if p.isTableRowEnd then Padding(CountCellsInCurrentRow(withCell)) + RowEnd else []
  }

  // ---- rows ----

  /** Appending text without a line feed extends the current row. */
  lemma CurrentRowExtend(a: string, b: string)
    requires '\n' !in b
    ensures CurrentRow(a + b) == CurrentRow(a) + b
  {
    LastIndexOfAppendAbsent(a, b, '\n');
    var k := LastIndexOf(a, '\n');
    assert (a + b)[k + 1..] == a[k + 1..] + b;
  }

  /** A line feed starts a new row. */
  lemma CurrentRowAfterLineFeed(a: string, b: string)
    requires EndsWith(a, "\n")
    ensures CurrentRow(a + b) == CurrentRow(b)
  {
    assert a[|a| - 1] == '\n' by {
      assert a[|a| - 1..] == "\n";
    }
    if '\n' in b {
      LastIndexOfAppendPresent(a, b, '\n');
      var kb := LastIndexOf(b, '\n');
      assert (a + b)[|a| + kb + 1..] == b[kb + 1..];
    } else {
      LastIndexOfAppendAbsent(a, b, '\n');
      assert LastIndexOf(a, '\n') == |a| - 1;
      assert (a + b)[|a|..] == b;
      LastIndexOfAbsent(b, '\n');
    }
  }

  // ---- one cell ----

  /** A field written after the marker starts with a '|', which the marker does not. */
  lemma MarkerPrefix(m: string, rest: string)
    requires m == TableMarker || |m| == 0
    requires |rest| > 0 && rest[0] == '|'
    ensures StartsWith(m + rest, TableMarker) <==> m == TableMarker
  {
    if m == TableMarker {
      assert (m + rest)[..|TableMarker|] == TableMarker;
    } else {
      assert (m + rest)[0] == '|';
    }
  }

  lemma MarkerIsTableMarker(p: Paragraph)
    ensures Marker(p) == TableMarker || |Marker(p)| == 0
    ensures Marker(p) == TableMarker <==> p.isFirstCellInTable
  {
  }

  /** The table marker opens the segment exactly for the first cell of a table, when the
      cell does not fail. */
  lemma TableCellMarker(out: string, p: Paragraph, text: string)
    requires p.cellFault == Intact
    ensures StartsWith(TableCellSegment(out, p, text), TableMarker) <==> p.isFirstCellInTable
  {
    var m := Marker(p);
    var f := CellField(text);
    var rest := f + RowClose(out + (m + f), p);
    assert TableCellSegment(out, p, text) == m + rest;
    assert rest[0] == '|';
    MarkerIsTableMarker(p);
    MarkerPrefix(m, rest);
  }

  /** A cell whose text cannot be read writes the error sentinel alone: no table marker
      and no field, and the builder then ends with a line feed, as after a row end. */
  lemma TableCellFault(out: string, p: Paragraph, text: string)
    requires p.cellFault == TextFails
    ensures TableCellSegment(out, p, text) == ErrorSentinel
    ensures !StartsWith(TableCellSegment(out, p, text), TableMarker)
    ensures EndsWith(out + TableCellSegment(out, p, text), "\n")
  {
    var w := out + ErrorSentinel;
    assert ErrorSentinel[0] != TableMarker[0];
    assert w[|w| - 1] == '\n';
    EndsWithChar(w, '\n');
  }

  /** An intact cell inside a row writes the marker, if any, and its field. */
  lemma IntactCellSegment(out: string, p: Paragraph, text: string)
    requires p.cellFault == Intact && !p.isTableRowEnd
    ensures TableCellSegment(out, p, text) == Marker(p) + CellField(text)
  {
  }

  /** The segment of an intact row end: the cell, the padding counted on the builder
      holding the cell, and the row end. */
  lemma RowEndSegment(out: string, p: Paragraph, text: string)
    requires p.cellFault == Intact && p.isTableRowEnd
    ensures TableCellSegment(out, p, text)
         == Marker(p) + CellField(text) + Padding(CountCellsInCurrentRow(out + (Marker(p) + CellField(text)))) + RowEnd
  {
  }

  /** An intact cell that ends a row pads it to ExpectedCells fields counted from the
      current row and closes it with the row end, so the output ends with a line feed. */
  lemma TableRowEnd(out: string, p: Paragraph, text: string)
    requires p.cellFault == Intact && p.isTableRowEnd
    ensures var cell := Marker(p) + CellField(text);
      var n := CountCellsInCurrentRow(out + cell);
      && TableCellSegment(out, p, text)
         == cell + Repeat(PaddingField, if n < ExpectedCells then ExpectedCells - n else 0) + RowEnd
      && EndsWith(out + TableCellSegment(out, p, text), "\n")
  {
    var seg := TableCellSegment(out, p, text);
    var cell := Marker(p) + CellField(text);
    var pad := Padding(CountCellsInCurrentRow(out + cell));
    RowEndSegment(out, p, text);
    assert seg == (cell + pad) + RowEnd;
    var w := out + seg;
    assert w[|w| - 1] == seg[|seg| - 1] == '\n';
    EndsWithChar(w, '\n');
  }

  // ---- a whole row ----

  /** The builder after processTableCell has run on the paragraphs lo to k - 1, starting
      from out; texts[i] is the normalised text of paragraph i. */
  function WriteCells(out: string, paras: seq<Paragraph>, texts: seq<string>, lo: nat, k: nat): string
    requires lo <= k <= |paras| == |texts|
    decreases k
  {
    if k == lo then out
    else
      var o := WriteCells(out, paras, texts, lo, k - 1);
      o + TableCellSegment(o, paras[k - 1], texts[k - 1])
  }

  /** The fields of the cells lo to k in order. */
  function RowFields(texts: seq<string>, lo: nat, k: nat): string
    requires lo <= k < |texts|
    decreases k
  {
    if k == lo then CellField(texts[lo]) else RowFields(texts, lo, k - 1) + CellField(texts[k])
  }

  /** Paragraph i is a cell of the row lo to last and succeeds: only the first cell may
      open a table and only the last ends the row. */
  predicate CellOfRow(paras: seq<Paragraph>, lo: nat, last: nat, i: nat)
    requires lo <= i <= last < |paras|
  {
    && paras[i].inTable
    && paras[i].cellFault == Intact
    && (paras[i].isTableRowEnd <==> i == last)
    && (i > lo ==> !paras[i].isFirstCellInTable)
  }

  /** The paragraphs lo to last are the cells of one table row, all of which succeed. */
  predicate RowShape(paras: seq<Paragraph>, lo: nat, last: nat)
    requires lo <= last < |paras|
  {
    forall i :: lo <= i <= last ==> CellOfRow(paras, lo, last, i)
  }

  /** A cell text on one line and without '|', as the row count needs. */
  predicate PlainText(texts: seq<string>, i: nat)
    requires i < |texts|
  {
    '|' !in texts[i] && '\n' !in texts[i]
  }

  /** A row of the shape above whose cell texts are plain. */
  predicate IntactRow(paras: seq<Paragraph>, texts: seq<string>, lo: nat, last: nat)
    requires lo <= last < |paras| == |texts|
  {
    && RowShape(paras, lo, last)
    && forall i :: lo <= i <= last ==> PlainText(texts, i)
  }

  /** Regrouping for RowPrefix: one more intact cell extends the row's fields by its own
      field. */
  lemma AppendNextCell(out: string, prev: string, head: string, rows: string, prevRows: string, f: string)
    requires out == prev + ([] + f)
    requires prev == head + prevRows
    requires rows == prevRows + f
    ensures out == head + rows
  {
    assert [] + f == f;
  }

  /** The builder once the cell at k has written its marker and field, before any
      padding. */
  function FieldsWritten(out: string, paras: seq<Paragraph>, texts: seq<string>, lo: nat, k: nat): string
    requires lo <= k < |paras| == |texts|
  {
    WriteCells(out, paras, texts, lo, k) + (Marker(paras[k]) + CellField(texts[k]))
  }

  /** The cells lo to k have written the marker of the row and their fields. */
  predicate FieldsInRow(out: string, paras: seq<Paragraph>, texts: seq<string>, lo: nat, k: nat)
    requires lo <= k < |paras| == |texts|
  {
    FieldsWritten(out, paras, texts, lo, k) == out + Marker(paras[lo]) + RowFields(texts, lo, k)
  }

  /** The first cell of a row writes the marker and its field. */
  lemma RowFirstCell(out: string, paras: seq<Paragraph>, texts: seq<string>, lo: nat)
    requires lo < |paras| == |texts|
    ensures FieldsInRow(out, paras, texts, lo, lo)
  {
    AppendAssoc(out, Marker(paras[lo]), CellField(texts[lo]));
  }

  /** A cell that does not end the row writes only its marker and field. */
  lemma WriteInnerCell(out: string, paras: seq<Paragraph>, texts: seq<string>, lo: nat, k: nat)
    requires lo < k < |paras| == |texts|
    requires paras[k - 1].cellFault == Intact && !paras[k - 1].isTableRowEnd
    ensures WriteCells(out, paras, texts, lo, k) == FieldsWritten(out, paras, texts, lo, k - 1)
  {
    IntactCellSegment(WriteCells(out, paras, texts, lo, k - 1), paras[k - 1], texts[k - 1]);
  }

  /** A later cell of a row writes its field after the cells before it: the cell at k
      continues the row that the cells up to k - 1 began. */
  lemma RowNextCell(out: string, paras: seq<Paragraph>, texts: seq<string>, lo: nat, k: nat)
    requires lo < k < |paras| == |texts|
    requires paras[k - 1].cellFault == Intact && !paras[k - 1].isTableRowEnd
    requires !paras[k].isFirstCellInTable
    requires FieldsInRow(out, paras, texts, lo, k - 1)
    ensures FieldsInRow(out, paras, texts, lo, k)
  {
    var o := WriteCells(out, paras, texts, lo, k);
    WriteInnerCell(out, paras, texts, lo, k);
    AppendNextCell(o + (Marker(paras[k]) + CellField(texts[k])), o, out + Marker(paras[lo]),
      RowFields(texts, lo, k), RowFields(texts, lo, k - 1), CellField(texts[k]));
  }

  /** The cells lo to k - 1 succeed without ending the row and none of the cells after
      lo opens a table, stated one cell at a time. */
  predicate InnerCells(paras: seq<Paragraph>, lo: nat, k: nat)
    requires k < |paras|
    decreases k
  {
    lo < k ==>
      && paras[k - 1].cellFault == Intact && !paras[k - 1].isTableRowEnd
      && !paras[k].isFirstCellInTable
      && InnerCells(paras, lo, k - 1)
  }

  /** The cells of a row before its last are inner cells. */
  lemma {:induction false} RowInnerCells(paras: seq<Paragraph>, lo: nat, k: nat, last: nat)
    requires lo <= k <= last < |paras| && RowShape(paras, lo, last)
    ensures InnerCells(paras, lo, k)
    decreases k
  {
    if lo < k {
      assert CellOfRow(paras, lo, last, k - 1) && CellOfRow(paras, lo, last, k);
      RowInnerCells(paras, lo, k - 1, last);
    }
  }

  /** The builder holding the field of the cell at k holds the marker and the cells lo
      to k. */
  lemma {:induction false} RowPrefix(out: string, paras: seq<Paragraph>, texts: seq<string>, lo: nat, k: nat)
    requires lo <= k < |paras| == |texts| && InnerCells(paras, lo, k)
    ensures FieldsInRow(out, paras, texts, lo, k)
    decreases k
  {
    if k == lo {
      RowFirstCell(out, paras, texts, lo);
    } else {
      RowPrefix(out, paras, texts, lo, k - 1);
      RowNextCell(out, paras, texts, lo, k);
    }
  }

  /** Appending a field whose text holds no '|' and no line feed adds two '|' and no
      line feed. */
  lemma FieldCount(prev: string, c: string)
    requires '\n' !in prev && '\n' !in c && '|' !in c
    ensures '\n' !in prev + CellField(c)
    ensures Count(prev + CellField(c), '|') == Count(prev, '|') + 2
  {
    CountAppend(prev, CellSeparator + c, '|');
    CountAppend(CellSeparator, c, '|');
    CountAbsent(c, '|');
  }

  /** Fields of plain texts: one line, two '|' per field. */
  lemma {:induction false} RowFieldsCount(texts: seq<string>, lo: nat, k: nat)
    requires lo <= k < |texts|
    requires forall i :: lo <= i <= k ==> PlainText(texts, i)
    ensures '\n' !in RowFields(texts, lo, k)
    ensures Count(RowFields(texts, lo, k), '|') == 2 * (k - lo + 1)
    decreases k
  {
    assert PlainText(texts, k);
    if k == lo {
      FieldCount([], texts[k]);
      assert [] + CellField(texts[k]) == CellField(texts[k]);
    } else {
      RowFieldsCount(texts, lo, k - 1);
      FieldCount(RowFields(texts, lo, k - 1), texts[k]);
    }
  }

  /** The cells of a row of plain texts written at the start of a line count as one cell
      each. */
  lemma RowCount(texts: seq<string>, lo: nat, last: nat, head: string)
    requires lo <= last < |texts|
    requires forall i :: lo <= i <= last ==> PlainText(texts, i)
    requires |head| == 0 || EndsWith(head, "\n")
    ensures CountCellsInCurrentRow(head + RowFields(texts, lo, last)) == last - lo + 1
  {
    var fields := RowFields(texts, lo, last);
    RowFieldsCount(texts, lo, last);
    if |head| == 0 {
      assert head + fields == fields;
    } else {
      CurrentRowAfterLineFeed(head, fields);
    }
    LastIndexOfAbsent(fields, '\n');
  }

  /** n padding fields hold two '|' each and no line feed. */
  lemma {:induction false} PaddingFieldsCount(n: nat)
    ensures '\n' !in Repeat(PaddingField, n)
    ensures Count(Repeat(PaddingField, n), '|') == 2 * n
  {
    if n > 0 {
      PaddingFieldsCount(n - 1);
      CountAppend(Repeat(PaddingField, n - 1), PaddingField, '|');
    }
  }

  /** A padded row of k plain cells has max(k, ExpectedCells) fields: twice that many '|'
      before the row end, on one line. */
  lemma PaddedRowFields(texts: seq<string>, lo: nat, last: nat)
    requires lo <= last < |texts|
    requires forall i :: lo <= i <= last ==> PlainText(texts, i)
    ensures var k := last + 1 - lo;
      var line := RowFields(texts, lo, last) + Padding(k);
      && '\n' !in line
      && Count(line, '|') == 2 * (if k < ExpectedCells then ExpectedCells else k)
  {
    var k := last + 1 - lo;
    RowFieldsCount(texts, lo, last);
    PaddingFieldsCount(if k < ExpectedCells then ExpectedCells - k else 0);
    CountAppend(RowFields(texts, lo, last), Padding(k), '|');
  }

  /** The table marker ends in a line feed, so a row after it starts a line. */
  lemma MarkerAtLineStart(out: string, p: Paragraph)
    requires |out| == 0 || EndsWith(out, "\n")
    ensures |out + Marker(p)| == 0 || EndsWith(out + Marker(p), "\n")
  {
    var head := out + Marker(p);
    if |Marker(p)| > 0 {
      assert head[|head| - 1] == '\n';
      EndsWithChar(head, '\n');
    } else {
      assert head == out;
    }
  }

  /** Regrouping for RowWritten: the row end's segment closes the fields written so far
      with the padding and the row end. */
  lemma JoinRowEnd(w: string, o: string, cell: string, pad: string, fields: string, pad2: string)
    requires w == o + (cell + pad + RowEnd)
    requires o + cell == fields && pad == pad2
    ensures w == fields + pad2 + RowEnd
  {
    AppendAssoc4(o, cell, pad, RowEnd);
  }

  /** The cells of an intact row hold the marker and the fields, which count as one cell
      each. */
  lemma RowCellsWritten(out: string, paras: seq<Paragraph>, texts: seq<string>, lo: nat, last: nat)
    requires lo <= last < |paras| == |texts| && IntactRow(paras, texts, lo, last)
    requires |out| == 0 || EndsWith(out, "\n")
    ensures FieldsInRow(out, paras, texts, lo, last)
    ensures CountCellsInCurrentRow(FieldsWritten(out, paras, texts, lo, last)) == last + 1 - lo
  {
    RowInnerCells(paras, lo, last, last);
    RowPrefix(out, paras, texts, lo, last);
    MarkerAtLineStart(out, paras[lo]);
    RowCount(texts, lo, last, out + Marker(paras[lo]));
  }

  /** A row of intact cells lo to last written at a line boundary: the marker, the
      cells' fields, padding up to ExpectedCells fields, and the row end. */
  lemma RowWritten(out: string, paras: seq<Paragraph>, texts: seq<string>, lo: nat, last: nat)
    requires lo <= last < |paras| == |texts| && IntactRow(paras, texts, lo, last)
    requires |out| == 0 || EndsWith(out, "\n")
    ensures WriteCells(out, paras, texts, lo, last + 1)
         == out + Marker(paras[lo]) + RowFields(texts, lo, last) + Padding(last + 1 - lo) + RowEnd
  {
    var o := WriteCells(out, paras, texts, lo, last);
    var cell := Marker(paras[last]) + CellField(texts[last]);
    assert CellOfRow(paras, lo, last, last);
    RowEndSegment(o, paras[last], texts[last]);
    RowCellsWritten(out, paras, texts, lo, last);
    JoinRowEnd(WriteCells(out, paras, texts, lo, last + 1), o, cell,
      Padding(CountCellsInCurrentRow(o + cell)), out + Marker(paras[lo]) + RowFields(texts, lo, last), Padding(last + 1 - lo));
  }
}
