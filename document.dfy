/** The paragraph records the extractor reads, as the word-processor document library
    hands them over. */
module Document {

  /** Whether an exception escapes the body of processTableCell's try block. The only call
      in it that can raise is the document library's para.text() at its top, before
      anything is appended: isFirstCellInTable and isLastCellInRow catch their own
      exceptions, and the cell normalisation, the row count and the appends raise none.
      The catch block then appends the error sentinel alone. */
  datatype CellFault =
    | Intact     // the block runs to the end
    | TextFails  // the repeated para.text() raises, so nothing was appended yet

  /** One paragraph of the document. `isFirstCellInTable` and `isTableRowEnd` are the
      answers of the corresponding checks, already false where those checks catch an
      exception. */
  datatype Paragraph = Paragraph(
    text: string,
    inTable: bool,
    inList: bool,
    ilvl: int,
    isTableRowEnd: bool,
    isFirstCellInTable: bool,
    styleIndex: int,
    indentFromLeft: int,
    justification: int,
    cellFault: CellFault)

  /** The three ways extract dispatches a paragraph, table first, then list. */
  datatype Kind = TableCell | ListItem | Normal

  function KindOf(p: Paragraph): (k: Kind)
    ensures k == TableCell <==> p.inTable
    ensures k == ListItem <==> !p.inTable && p.inList
    ensures k == Normal <==> !p.inTable && !p.inList
  {
    if p.inTable then TableCell else if p.inList then ListItem else Normal
  }
}
