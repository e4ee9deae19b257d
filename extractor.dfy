/** The DocNumberExtractor object: the counters array and the two fields that the list
    numbering updates in place, and the methods that walk a document's paragraphs. Each
    method is proved against the specification functions of the other modules. */
module Extractor {
  import opened JavaString
  import opened CellText
  import opened Document
  import opened Numbering
  import opened Headings
  import opened Tables
  import opened Extraction

  class DocNumberExtractor {
    /** The paragraphs of the document handed to the constructor. */
    const document: seq<Paragraph>
    const counters: array<int>
    var lastLevel: int
    var lastParagraphNumber: int

    /** The numbering state the fields hold. */
    function State(): NumberingState
      reads this, counters
    {
      NumberingState(counters[..], lastLevel, lastParagraphNumber)
    }

    ghost predicate Valid()
      reads this, counters
    {
      Numbering.Valid(State())
    }

    /** new int[10], lastLevel 0, lastParagraphNumber -1. */
    constructor (document: seq<Paragraph>)
      ensures Valid() && State() == Initial() && this.document == document
      ensures fresh(counters)
    {
      this.document := document;
      counters := new int[CounterSlots](_ => 0);
      lastLevel := 0;
      lastParagraphNumber := NoParagraph;
      new;
      assert counters[..] == Zeros(CounterSlots);
    }

    /** updateCounters(currentLevel): clear the slots from the level on when it does not go
        deeper than the last one, then add one to the level's own slot. A level without a
        slot makes an array access fail: ok is then false and the counters are what the
        clearing loop had left. */
    method UpdateCounters(currentLevel: int) returns (ok: bool)
      requires Valid()
      modifies counters
      ensures ok <==> 1 <= currentLevel <= CounterSlots
      ensures ok ==> counters[..] == Advance(old(counters[..]), lastLevel, currentLevel)
      ensures !ok ==> counters[..] == FailedAdvance(old(counters[..]), lastLevel, currentLevel)
    {
      if currentLevel <= lastLevel {
        if currentLevel < 0 {
          return false;
        }
        var j := currentLevel;
        while j < counters.Length
          invariant currentLevel <= j <= counters.Length
          invariant forall k :: 0 <= k < currentLevel ==> counters[k] == old(counters[k])
          invariant forall k :: currentLevel <= k < j ==> counters[k] == 0
          invariant forall k :: j <= k < counters.Length ==> counters[k] == old(counters[k])
        {
          counters[j] := 0;
          j := j + 1;
        }
      }
      if !(1 <= currentLevel <= counters.Length) {
        return false;
      }
      counters[currentLevel - 1] := counters[currentLevel - 1] + 1;
      ok := true;
    }

    /** resetCounters: Arrays.fill(counters, 0) and lastLevel 0. */
    method ResetCounters()
      requires Valid()
      modifies this, counters
      ensures Valid() && State() == Reset(old(State()))
    {
      var j := 0;
      while j < counters.Length
        invariant 0 <= j <= counters.Length
        invariant forall k :: 0 <= k < j ==> counters[k] == 0
        invariant forall k :: j <= k < counters.Length ==> counters[k] == old(counters[k])
        invariant lastLevel == old(lastLevel) && lastParagraphNumber == old(lastParagraphNumber)
      {
        counters[j] := 0;
        j := j + 1;
      }
      lastLevel := 0;
      assert counters[..] == Zeros(CounterSlots);
    }

    /** generateNumber(level): the first level counters joined by dots. */
    method GenerateNumber(level: int) returns (number: string)
      requires 0 <= level <= counters.Length
      ensures number == DotPath(counters[..level])
    {
      number := [];
      var j := 0;
      while j < level
        invariant 0 <= j <= level
        invariant number == DotPath(counters[..j])
      {
        assert counters[..j + 1][..j] == counters[..j];
        if j > 0 {
          number := number + ".";
        }
        number := number + IntToString(counters[j]);
        j := j + 1;
      }
    }

    /** processListItem: number the item at its level and append the number and the
        text. When the level has no slot the exception leaves the builder and lastLevel
        alone, with the counters as the failed update left them. */
    method ProcessListItem(formattedText: string, para: Paragraph, text: string) returns (r: string, ok: bool)
      requires Valid()
      modifies this, counters
      ensures ok <==> 1 <= ListLevel(para) <= CounterSlots
      ensures lastParagraphNumber == old(lastParagraphNumber)
      ensures ok ==>
        var cs := Advance(old(counters[..]), old(lastLevel), ListLevel(para));
        && State() == NumberingState(cs, ListLevel(para), old(lastParagraphNumber))
        && r == formattedText + FormatMarkdown(DotPath(cs[..ListLevel(para)]), text)
      ensures !ok ==>
        && State() == NumberingState(FailedAdvance(old(counters[..]), old(lastLevel), ListLevel(para)),
                                     old(lastLevel), old(lastParagraphNumber))
        && r == formattedText
    {
      var level := para.ilvl + 1;
      ok := UpdateCounters(level);
      if !ok {
        return formattedText, false;
      }
      var number := GenerateNumber(level);
      r := formattedText + FormatMarkdown(number, text);
      lastLevel := level;
    }

    /** shouldResetCounters(i). What the gap rule means for the counters over a whole run
        is stated by Extraction.CountersCount and Extraction.StatesLastItem. */
    function ShouldResetCounters(currentParagraphNumber: int): (r: bool)
      reads this
      ensures r <==> lastParagraphNumber != NoParagraph
                     && currentParagraphNumber - lastParagraphNumber > MaxParagraphGap
    {
      GapExceeded(lastParagraphNumber, currentParagraphNumber)
    }

    /** The list branch of extract: the gap check and the reset, processListItem, and the
        position of the item. When the level has no slot the exception leaves the fields
        in the failure state and the builder as it was. */
    method ListBranch(formattedText: string, i: int, para: Paragraph, text: string) returns (r: string, ok: bool)
      requires Valid() && i >= 0 && IsListItem(para) && text == Trim(para.text)
      modifies this, counters
      ensures ok <==> !BadLevel(para)
      ensures ok ==> Valid() && State() == Number(old(State()), i, ListLevel(para))
                     && r == formattedText + ListSegment(old(State()), i, para)
      ensures !ok ==> State() == FailureState(old(State()), i, para) && r == formattedText
    {
      ghost var s := State();
      if ShouldResetCounters(i) {
        ResetCounters();
      }
      ghost var mid := State();
      assert mid == if GapExceeded(s.lastParagraphNumber, i) then Reset(s) else s;
      r, ok := ProcessListItem(formattedText, para, text);
      if !ok {
        return;
      }
      lastParagraphNumber := i;
      NumberValid(s, i, ListLevel(para));
    }

    /** extract: the paragraphs in order, each dispatched on table, list or neither; the
        built text, or the exception that a list level without a slot raises. */
    method Extract() returns (r: Result<string>)
      requires Valid()
      modifies this, counters
      ensures Valid()
      ensures r == ExtractFrom(old(State()), document)
      ensures State() == FinalState(old(State()), document)
    {
      ghost var st0 := State();
      var formattedText: string := [];
      var i := 0;
      while i < |document|
        invariant 0 <= i <= |document|
        invariant Valid()
        invariant States(st0, document, i) == Ok(State())
        invariant formattedText == Output(st0, document, i)
      {
        var para := document[i];
        var text := Trim(para.text);
        if para.inTable {
          TableStep(st0, document, i);
          formattedText := ProcessTableCell(formattedText, para);
        } else if para.inList {
          var ok;
          formattedText, ok := ListBranch(formattedText, i, para, text);
          if !ok {
            ListFailure(st0, document, i);
            return Err(LevelOutOfRange(i, para.ilvl));
          }
          ListStep(st0, document, i);
        } else {
          NormalStep(st0, document, i);
          formattedText := ProcessNormalParagraph(formattedText, para);
        }
        i := i + 1;
      }
      r := Ok(formattedText);
    }
  }

  /** processTableCell: the marker, the cell and, at a row end, the padding and the row
      end; the error sentinel alone when the text cannot be read. */
  method ProcessTableCell(formattedText: string, para: Paragraph) returns (r: string)
    ensures r == formattedText + TableCellSegment(formattedText, para, CellContent(Some(para.text)))
  {
    if para.cellFault == TextFails {
      return formattedText + ErrorSentinel;
    }
    r := formattedText;
    if para.isFirstCellInTable {
      r := r + TableMarker;
    }
    assert r == formattedText + Marker(para);
    var cellText := CellContent(Some(para.text));
    AppendAssoc(r, CellSeparator, cellText);
    r := r + CellSeparator + cellText;
    ghost var cell := Marker(para) + CellField(cellText);
    AppendAssoc(formattedText, Marker(para), CellField(cellText));
    assert r == formattedText + cell;
    if para.isTableRowEnd {
      var rest := CloseRow(r);
      AppendAssoc(formattedText, cell, RowClose(formattedText + cell, para));
      r := r + rest;
    } else {
      assert cell + [] == cell;
    }
  }

  /** The row-end branch of processTableCell: one "||-" per cell the current row lacks
      up to ExpectedCells, then the row end. */
  method CloseRow(withCell: string) returns (rest: string)
    ensures rest == Padding(CountCellsInCurrentRow(withCell)) + RowEnd
  {
    var currentCells := CountCellsInCurrentRow(withCell);
    rest := [];
    var i := currentCells;
    while i < ExpectedCells
      invariant currentCells <= i
      invariant currentCells < ExpectedCells ==> i <= ExpectedCells
      invariant currentCells >= ExpectedCells ==> i == currentCells
      invariant rest == Repeat(PaddingField, i - currentCells)
    {
      AppendAssoc(rest, CellSeparator, "-");
      rest := rest + CellSeparator + "-";
      i := i + 1;
    }
    rest := rest + RowEnd;
  }

  /** processNormalParagraph: the trimmed text, behind the separator line when the text
      looks like a chapter title, and an empty line. */
  method ProcessNormalParagraph(formattedText: string, para: Paragraph) returns (r: string)
    ensures r == formattedText + NormalSegment(para)
  {
    var text := Trim(para.text);
    var separated := ShouldAddSeparator(para, text);
    r := formattedText;
    if separated {
      r := r + Repeat("+", SeparatorWidth) + "\n";
      AppendAssoc(formattedText, Repeat("+", SeparatorWidth), "\n");
    }
    ghost var sep := if separated then Separator else [];
    assert r == formattedText + sep;
    AppendAssoc4(formattedText, sep, text, ParagraphEnd);
    r := r + text + ParagraphEnd;
  }

  /** extractFromFile: construct an extractor on the parsed document and run extract;
      an IOException gives the empty string. */
  method ExtractFromFile(f: FileOutcome) returns (r: Result<string>)
    ensures r == FileResult(f)
  {
    if f.Unreadable? {
      return Ok([]);
    }
    var extractor := new DocNumberExtractor(f.paras);
    r := extractor.Extract();
    if r.Ok? && f.closeFails {
      r := Ok([]);
    }
  }
}
