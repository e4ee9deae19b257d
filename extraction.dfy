/** extract: the paragraph loop. Its effect is two left folds over the paragraphs: the
    counter state, which only list items change, and the builder text, to which every
    paragraph appends one segment computed from the state before it. */
module Extraction {
  import opened JavaString
  import opened CellText
  import opened Document
  import opened Numbering
  import opened Headings
  import opened Tables

  /** The exception that escapes extract: a list level outside the counter slots makes the
      array accesses of updateCounters fail at the paragraph with this index. */
  datatype ExtractError = LevelOutOfRange(index: int, ilvl: int)

  datatype Result<T> = Ok(value: T) | Err(error: ExtractError)

  /** Appended after every list item and every normal paragraph. */
  const ParagraphEnd := "\n\n"

  /** getIlvl() + 1. */
  function ListLevel(p: Paragraph): int {
    p.ilvl + 1
  }

  predicate IsListItem(p: Paragraph) {
    KindOf(p) == ListItem
  }

  /** A list item whose level has no counter slot. */
  predicate BadLevel(p: Paragraph) {
    IsListItem(p) && !(1 <= ListLevel(p) <= CounterSlots)
  }

  // ---- the counter state ----

  /** The counter state after the paragraph at index i: the gap check, the reset and the
      numbering of a list item; every other paragraph leaves the state alone. */
  function NextState(st: NumberingState, i: int, p: Paragraph): Result<NumberingState>
    requires Valid(st) && i >= 0
  {
    if !IsListItem(p) then Ok(st)
    else if BadLevel(p) then Err(LevelOutOfRange(i, p.ilvl))
    else Ok(Number(st, i, ListLevel(p)))
  }

  /** A paragraph fails exactly when it is a list item without a slot; otherwise the state
      stays valid, moves only for list items, and then records the item. */
  lemma NextStateSpec(st: NumberingState, i: int, p: Paragraph)
    requires Valid(st) && i >= 0
    ensures var r := NextState(st, i, p);
      && (r.Err? <==> BadLevel(p))
      && (r.Err? ==> r.error == LevelOutOfRange(i, p.ilvl))
      && (r.Ok? ==> Valid(r.value))
      && (r.Ok? && !IsListItem(p) ==> r.value == st)
      && (r.Ok? && IsListItem(p) ==> r.value.lastParagraphNumber == i && r.value.lastLevel == ListLevel(p))
  {
    if IsListItem(p) && !BadLevel(p) {
      NumberValid(st, i, ListLevel(p));
    }
  }

  /** The counter state after the first k paragraphs, or the failure that stopped the loop. */
  function States(st: NumberingState, paras: seq<Paragraph>, k: nat): (r: Result<NumberingState>)
    requires Valid(st) && k <= |paras|
    ensures r.Ok? ==> Valid(r.value)
  {
    if k == 0 then Ok(st)
    else
      match States(st, paras, k - 1)
      case Err(e) => Err(e)
      case Ok(s) =>
        NextStateSpec(s, k - 1, paras[k - 1]);
        NextState(s, k - 1, paras[k - 1])
  }

  // ---- the builder text ----

  /** formatMarkdown: the number and the trimmed text on a line of their own, followed by
      an empty line. */
  function FormatMarkdown(number: string, text: string): string {
    " " + number + " " + text + ParagraphEnd
  }

  /** processNormalParagraph: the trimmed text, after a separator line when it is a title. */
  function NormalSegment(p: Paragraph): string {
    var text := Trim(p.text);
    (if ShouldAddSeparator(p, text) then Separator else []) + text + ParagraphEnd
  }

  /** processListItem: the number generated from the counters once they are updated. */
  function ListSegment(st: NumberingState, i: int, p: Paragraph): string
    requires Valid(st) && IsListItem(p) && !BadLevel(p)
  {
    var level := ListLevel(p);
    FormatMarkdown(DotPath(Number(st, i, level).counters[..level]), Trim(p.text))
  }

  /** What the paragraph at index k - 1 appends, given the counter state s before it;
      a table cell also depends on the builder text so far. */
  function Segment(st: NumberingState, s: NumberingState, paras: seq<Paragraph>, k: nat): string
    requires Valid(st) && Valid(s) && 0 < k <= |paras| && !BadLevel(paras[k - 1])
    decreases k, 0
  {
    var p := paras[k - 1];
    match KindOf(p)
    case TableCell => TableCellSegment(Output(st, paras, k - 1), p, CellContent(Some(p.text)))
    case Normal => NormalSegment(p)
    case ListItem => ListSegment(s, k - 1, p)
  }

  /** What the paragraph at index k - 1 appends to the builder: nothing once the loop has
      stopped or when the paragraph itself fails. */
  function Appended(st: NumberingState, paras: seq<Paragraph>, k: nat): string
    requires Valid(st) && 0 < k <= |paras|
    decreases k, 1
  {
    match States(st, paras, k - 1)
    case Err(_) => []
    case Ok(s) => if BadLevel(paras[k - 1]) then [] else Segment(st, s, paras, k)
  }

  /** The builder text after the first k paragraphs; once a paragraph fails, the text it
      had when the exception left the loop. */
  function Output(st: NumberingState, paras: seq<Paragraph>, k: nat): string
    requires Valid(st) && k <= |paras|
    decreases k, 2
  {
    if k == 0 then [] else Output(st, paras, k - 1) + Appended(st, paras, k)
  }

  /** extract on an extractor in state st: the built text, or the exception. */
  function ExtractFrom(st: NumberingState, paras: seq<Paragraph>): Result<string>
    requires Valid(st)
  {
    match States(st, paras, |paras|)
    case Err(e) => Err(e)
    case Ok(_) => Ok(Output(st, paras, |paras|))
  }

  /** extract on a freshly constructed extractor. */
  function ExtractText(paras: seq<Paragraph>): Result<string> {
    InitialValid();
    ExtractFrom(Initial(), paras)
  }

  // ---- the builder only grows, and a failure ends the loop ----

  /** Later iterations only append to the builder. */
  lemma {:induction false} OutputPrefix(st: NumberingState, paras: seq<Paragraph>, j: nat, k: nat)
    requires Valid(st) && j <= k <= |paras|
    ensures StartsWith(Output(st, paras, k), Output(st, paras, j))
    decreases k
  {
    if j < k {
      OutputPrefix(st, paras, j, k - 1);
      PrefixOfAppend(Output(st, paras, k - 1), Appended(st, paras, k));
      StartsWithTrans(Output(st, paras, j), Output(st, paras, k - 1), Output(st, paras, k));
    }
  }

  /** Once a paragraph fails, every longer run fails with the same error. */
  lemma {:induction false} StatesPrefix(st: NumberingState, paras: seq<Paragraph>, j: nat, k: nat)
    requires Valid(st) && j <= k <= |paras|
    ensures States(st, paras, j).Err? ==> States(st, paras, k) == States(st, paras, j)
    ensures States(st, paras, k).Ok? ==> States(st, paras, j).Ok?
    decreases k
  {
    if j < k {
      StatesPrefix(st, paras, j, k - 1);
    }
  }

  /** After a failure the builder does not change any more. */
  lemma {:induction false} OutputStopsAtError(st: NumberingState, paras: seq<Paragraph>, j: nat, k: nat)
    requires Valid(st) && j <= k <= |paras|
    requires States(st, paras, j).Err?
    ensures Output(st, paras, k) == Output(st, paras, j)
    decreases k
  {
    if j < k {
      OutputStopsAtError(st, paras, j, k - 1);
      StatesPrefix(st, paras, j, k - 1);
      OutputAfterError(st, paras, k);
    }
  }

  /** A paragraph after a failure appends nothing. */
  lemma OutputAfterError(st: NumberingState, paras: seq<Paragraph>, k: nat)
    requires Valid(st) && 0 < k <= |paras| && States(st, paras, k - 1).Err?
    ensures Output(st, paras, k) == Output(st, paras, k - 1)
  {
    assert |Appended(st, paras, k)| == 0;
  }

  /** The loop fails exactly when some list item has a level without a slot, and it names
      the first of them. */
  lemma {:induction false} StatesErrorIsFirstBadLevel(st: NumberingState, paras: seq<Paragraph>, k: nat)
    requires Valid(st) && k <= |paras|
    ensures States(st, paras, k).Err? <==> exists i :: 0 <= i < k && BadLevel(paras[i])
    ensures States(st, paras, k).Err? ==>
      var i := States(st, paras, k).error.index;
      && 0 <= i < k
      && BadLevel(paras[i])
      && States(st, paras, k).error.ilvl == paras[i].ilvl
      && forall i' :: 0 <= i' < i ==> !BadLevel(paras[i'])
  {
    if k > 0 {
      StatesErrorIsFirstBadLevel(st, paras, k - 1);
      if States(st, paras, k - 1).Err? {
        var i :| 0 <= i < k - 1 && BadLevel(paras[i]);
        assert 0 <= i < k;
      } else if exists i :: 0 <= i < k && BadLevel(paras[i]) {
        var i :| 0 <= i < k && BadLevel(paras[i]);
        assert i == k - 1;
      }
    }
  }

  // ---- the last numbered paragraph ----

  /** The index of the last list item before k, or `initial` when there is none. */
  function LastListBefore(initial: int, paras: seq<Paragraph>, k: nat): (n: int)
    requires k <= |paras|
    ensures || (n == initial && forall i :: 0 <= i < k ==> !IsListItem(paras[i]))
            || (0 <= n < k && IsListItem(paras[n]) && forall i :: n < i < k ==> !IsListItem(paras[i]))
  {
    if k == 0 then initial
    else if IsListItem(paras[k - 1]) then k - 1
    else LastListBefore(initial, paras, k - 1)
  }

  predicate HasListItem(paras: seq<Paragraph>, k: nat)
    requires k <= |paras|
  {
    exists i :: 0 <= i < k && IsListItem(paras[i])
  }

  /** lastParagraphNumber is the index of the last list item and lastLevel its level;
      tables and normal paragraphs leave both alone, and so the gap is measured in
      paragraphs of every kind. */
  lemma {:induction false} StatesLastItem(st: NumberingState, paras: seq<Paragraph>, k: nat)
    requires Valid(st) && k <= |paras|
    requires States(st, paras, k).Ok?
    ensures var s := States(st, paras, k).value;
      var n := LastListBefore(st.lastParagraphNumber, paras, k);
      && s.lastParagraphNumber == n
      && s.lastLevel == if HasListItem(paras, k) then ListLevel(paras[n]) else st.lastLevel
  {
    if k > 0 {
      assert States(st, paras, k - 1).Ok?;
      StatesLastItem(st, paras, k - 1);
      if IsListItem(paras[k - 1]) {
        assert HasListItem(paras, k);
      } else {
        assert HasListItem(paras, k) == HasListItem(paras, k - 1);
      }
    }
  }

  // ---- what the counters count ----

  /** The list item at i is numbered after a reset of all counters: more than
      MaxParagraphGap paragraphs separate it from the previous list item. */
  predicate ResetsAt(st: NumberingState, paras: seq<Paragraph>, i: nat)
    requires i < |paras|
  {
    IsListItem(paras[i]) && GapExceeded(LastListBefore(st.lastParagraphNumber, paras, i), i)
  }

  /** The paragraph at i leaves slot j (the counter of level j + 1) at zero before it
      counts itself: a reset, or a list item at a level no deeper than j. */
  predicate ClearsSlot(st: NumberingState, paras: seq<Paragraph>, i: nat, j: int)
    requires i < |paras|
  {
    IsListItem(paras[i]) && (ResetsAt(st, paras, i) || ListLevel(paras[i]) <= j)
  }

  /** The last paragraph before k that clears slot j, or -1. */
  function LastClear(st: NumberingState, paras: seq<Paragraph>, k: nat, j: int): (c: int)
    requires k <= |paras|
    ensures -1 <= c < k
    ensures c >= 0 ==> ClearsSlot(st, paras, c, j)
    ensures forall i :: c < i < k ==> !ClearsSlot(st, paras, i, j)
  {
    if k == 0 then -1
    else if ClearsSlot(st, paras, k - 1, j) then k - 1
    else LastClear(st, paras, k - 1, j)
  }

  /** The number of list items at the given level among the paragraphs lo to hi - 1. */
  function LevelCount(paras: seq<Paragraph>, lo: nat, hi: nat, level: int): (n: nat)
    requires hi <= |paras|
    ensures n <= if lo <= hi then hi - lo else 0
  {
    if hi <= lo then 0
    else LevelCount(paras, lo, hi - 1, level)
         + (if IsListItem(paras[hi - 1]) && ListLevel(paras[hi - 1]) == level then 1 else 0)
  }

  /** The value slot j holds after k paragraphs: the items of level j + 1 since the slot
      was last cleared, on top of the initial value when it never was. */
  function ExpectedCounter(st: NumberingState, paras: seq<Paragraph>, k: nat, j: int): int
    requires k <= |paras| && 0 <= j < |st.counters|
  {
    var c := LastClear(st, paras, k, j);
    if c < 0 then st.counters[j] + LevelCount(paras, 0, k, j + 1)
    else LevelCount(paras, c, k, j + 1)
  }

  lemma CountersAfterNumber(s: NumberingState, i: int, level: int, j: int)
    requires Valid(s) && 1 <= level <= CounterSlots && 0 <= i && 0 <= j < CounterSlots
    ensures var r := GapExceeded(s.lastParagraphNumber, i);
      Number(s, i, level).counters[j]
      == if j == level - 1 then (if r then 0 else s.counters[j]) + 1
         else if j >= level || r then 0
         else s.counters[j]
  {
    var before := if GapExceeded(s.lastParagraphNumber, i) then Reset(s) else s;
    assert Valid(before);
    AdvanceInValidState(before, level);
    var cs := before.counters;
    var e := cs[..level - 1] + [cs[level - 1] + 1] + Zeros(CounterSlots - level);
    if j >= level {
      assert e[j] == Zeros(CounterSlots - level)[j - level];
    }
  }

  /** Whether the paragraph at i is a list item of the given level. */
  function LevelItem(paras: seq<Paragraph>, i: nat, level: int): nat
    requires i < |paras|
  {
    if IsListItem(paras[i]) && ListLevel(paras[i]) == level then 1 else 0
  }

  /** The expected value of a slot after one more paragraph: zero when the paragraph clears
      it, plus one when the paragraph is an item of the slot's level. */
  lemma ExpectedStep(st: NumberingState, paras: seq<Paragraph>, k: nat, j: int)
    requires 0 < k <= |paras| && 0 <= j < |st.counters|
    ensures ExpectedCounter(st, paras, k, j)
         == (if ClearsSlot(st, paras, k - 1, j) then 0 else ExpectedCounter(st, paras, k - 1, j))
            + LevelItem(paras, k - 1, j + 1)
  {
  }

  /** The counters after one more paragraph, as the same recurrence. */
  lemma CounterStep(st: NumberingState, paras: seq<Paragraph>, k: nat, j: int)
    requires Valid(st) && 0 < k <= |paras| && States(st, paras, k).Ok? && 0 <= j < CounterSlots
    ensures States(st, paras, k - 1).Ok?
    ensures States(st, paras, k).value.counters[j]
         == (if ClearsSlot(st, paras, k - 1, j) then 0 else States(st, paras, k - 1).value.counters[j])
            + LevelItem(paras, k - 1, j + 1)
  {
    var s := States(st, paras, k - 1).value;
    var p := paras[k - 1];
    if IsListItem(p) {
      StatesLastItem(st, paras, k - 1);
      CountersAfterNumber(s, k - 1, ListLevel(p), j);
    }
  }

  /** Every counter holds the number of items of its level since it was last cleared. */
  lemma {:induction false} CountersCount(st: NumberingState, paras: seq<Paragraph>, k: nat)
    requires Valid(st) && k <= |paras| && States(st, paras, k).Ok?
    ensures forall j :: 0 <= j < CounterSlots ==>
      States(st, paras, k).value.counters[j] == ExpectedCounter(st, paras, k, j)
  {
    if k > 0 {
      forall j | 0 <= j < CounterSlots
        ensures States(st, paras, k).value.counters[j] == ExpectedCounter(st, paras, k, j)
      {
        CounterStep(st, paras, k, j);
        CountersCount(st, paras, k - 1);
        ExpectedStep(st, paras, k, j);
      }
    }
  }

  /** A counter never exceeds its initial value plus the number of paragraphs, so the
      source's 32-bit counters cannot wrap for any document of fewer than 2^31 paragraphs. */
  lemma CountersBounded(st: NumberingState, paras: seq<Paragraph>, k: nat)
    requires Valid(st) && k <= |paras| && States(st, paras, k).Ok?
    ensures forall j :: 0 <= j < CounterSlots ==>
      0 <= States(st, paras, k).value.counters[j] <= st.counters[j] + k
  {
    CountersCount(st, paras, k);
  }

  // ---- what a list item writes ----

  /** A list item writes its number and its trimmed text; the number has one dot-separated
      field per level up to its own, field j reads back as the count of level j + 1 items
      since slot j was last cleared, and the last field, the item itself, is at least 1. */
  lemma ListItemNumber(st: NumberingState, paras: seq<Paragraph>, i: nat)
    requires Valid(st) && i < |paras| && IsListItem(paras[i]) && States(st, paras, i + 1).Ok?
    ensures var level := ListLevel(paras[i]);
      && 1 <= level <= CounterSlots
      && var number := DotPath(States(st, paras, i + 1).value.counters[..level]);
      && Appended(st, paras, i + 1) == FormatMarkdown(number, Trim(paras[i].text))
      && |SplitDots(number)| == level
      && (forall j :: 0 <= j < level ==> ParseInt(SplitDots(number)[j]) == ExpectedCounter(st, paras, i + 1, j))
      && ParseInt(SplitDots(number)[level - 1]) >= 1
  {
    assert States(st, paras, i).Ok?;
    var s := States(st, paras, i).value;
    var level := ListLevel(paras[i]);
    var cs := States(st, paras, i + 1).value.counters;
    CountersCount(st, paras, i + 1);
    DotPathDecodes(cs[..level]);
    CountersAfterNumber(s, i, level, level - 1);
  }

  // ---- what a table row writes ----

  /** processCellContent applied to the text of every paragraph. */
  function CellTexts(paras: seq<Paragraph>): (r: seq<string>)
    ensures |r| == |paras|
  {
    seq(|paras|, i requires 0 <= i < |paras| => CellContent(Some(paras[i].text)))
  }

  lemma CellTextAt(paras: seq<Paragraph>, i: int)
    requires 0 <= i < |paras|
    ensures CellTexts(paras)[i] == CellContent(Some(paras[i].text))
  {
  }

  /** A table cell leaves the counter state alone. */
  lemma StatesTableCell(st: NumberingState, paras: seq<Paragraph>, m: nat)
    requires Valid(st) && 0 < m <= |paras| && paras[m - 1].inTable && States(st, paras, m - 1).Ok?
    ensures States(st, paras, m) == States(st, paras, m - 1)
  {
  }

  /** A table cell appends what processTableCell appends. */
  lemma AppendedTableCell(st: NumberingState, paras: seq<Paragraph>, m: nat)
    requires Valid(st) && 0 < m <= |paras| && paras[m - 1].inTable && States(st, paras, m - 1).Ok?
    ensures Appended(st, paras, m)
         == TableCellSegment(Output(st, paras, m - 1), paras[m - 1], CellContent(Some(paras[m - 1].text)))
  {
  }

  /** The paragraphs lo to k - 1 are table cells, reached without a failure. */
  predicate TableRun(st: NumberingState, paras: seq<Paragraph>, lo: nat, k: nat) {
    Valid(st) && lo <= k <= |paras| && States(st, paras, lo).Ok? && TableCells(paras, lo, k)
  }

  /** The paragraphs lo to k - 1 are table cells. */
  predicate TableCells(paras: seq<Paragraph>, lo: nat, k: nat)
    requires k <= |paras|
    decreases k
  {
    lo < k ==> paras[k - 1].inTable && TableCells(paras, lo, k - 1)
  }

  /** Over a run of table paragraphs the counter state does not move. */
  lemma {:induction false} StatesOverTable(st: NumberingState, paras: seq<Paragraph>, lo: nat, k: nat)
    requires TableRun(st, paras, lo, k)
    ensures States(st, paras, k) == States(st, paras, lo)
    decreases k
  {
    if k > lo {
      StatesOverTable(st, paras, lo, k - 1);
      StatesTableCell(st, paras, k);
    }
  }

  /** The last cell of a table run appends what processTableCell appends. */
  lemma TableRunLast(st: NumberingState, paras: seq<Paragraph>, lo: nat, k: nat)
    requires TableRun(st, paras, lo, k) && lo < k
    ensures Appended(st, paras, k) == TableCellSegment(Output(st, paras, k - 1), paras[k - 1], CellContent(Some(paras[k - 1].text)))
  {
    StatesOverTable(st, paras, lo, k - 1);
    AppendedTableCell(st, paras, k);
  }

  /** Over a run of table paragraphs the loop does what processTableCell does on each of
      them in turn, given the normalised texts of the cells. */
  lemma {:induction false} OutputOverTable(st: NumberingState, paras: seq<Paragraph>, texts: seq<string>, lo: nat, k: nat)
    requires TableRun(st, paras, lo, k) && |texts| == |paras|
    requires forall i :: lo <= i < k ==> TextAt(paras, texts, i)
    ensures Output(st, paras, k) == WriteCells(Output(st, paras, lo), paras, texts, lo, k)
    decreases k
  {
    if k > lo {
      OutputOverTable(st, paras, texts, lo, k - 1);
      assert TextAt(paras, texts, k - 1);
      TableRunLast(st, paras, lo, k);
    }
  }

  /** texts[i] is the normalised text of paragraph i. */
  predicate TextAt(paras: seq<Paragraph>, texts: seq<string>, i: nat)
    requires i < |paras| == |texts|
  {
    texts[i] == CellContent(Some(paras[i].text))
  }

  /** A row of intact cells, none of whose normalised texts holds a '|', that starts at a
      line boundary is written as its cells, padded with "||-" up to ExpectedCells fields
      when it has fewer, and the row end; the counter state does not move. */
  lemma RowEmission(st: NumberingState, paras: seq<Paragraph>, lo: nat, last: nat)
    requires Valid(st) && lo <= last < |paras| && RowShape(paras, lo, last)
    requires forall i :: lo <= i <= last ==> '|' !in CellContent(Some(paras[i].text))
    requires States(st, paras, lo).Ok?
    requires |Output(st, paras, lo)| == 0 || EndsWith(Output(st, paras, lo), "\n")
    ensures States(st, paras, last + 1) == States(st, paras, lo)
    ensures Output(st, paras, last + 1)
         == Output(st, paras, lo) + Marker(paras[lo]) + RowFields(CellTexts(paras), lo, last)
            + Padding(last + 1 - lo) + RowEnd
  {
    RowTexts(paras, lo, last);
    CellsInTable(paras, lo, last + 1);
    StatesOverTable(st, paras, lo, last + 1);
    OutputOverTable(st, paras, CellTexts(paras), lo, last + 1);
    RowWritten(Output(st, paras, lo), paras, CellTexts(paras), lo, last);
  }

  /** Table paragraphs from lo to k - 1, stated one at a time. */
  lemma {:induction false} CellsInTable(paras: seq<Paragraph>, lo: nat, k: nat)
    requires lo <= k <= |paras| && forall i :: lo <= i < k ==> paras[i].inTable
    ensures TableCells(paras, lo, k)
    decreases k
  {
    if lo < k {
      CellsInTable(paras, lo, k - 1);
    }
  }

  /** The cells of such a row are table paragraphs with plain normalised texts. */
  lemma RowTexts(paras: seq<Paragraph>, lo: nat, last: nat)
    requires lo <= last < |paras| && RowShape(paras, lo, last)
    requires forall i :: lo <= i <= last ==> '|' !in CellContent(Some(paras[i].text))
    ensures forall i :: lo <= i < last + 1 ==> paras[i].inTable
    ensures forall i :: lo <= i < last + 1 ==> TextAt(paras, CellTexts(paras), i)
    ensures IntactRow(paras, CellTexts(paras), lo, last)
  {
    var texts := CellTexts(paras);
    forall i | lo <= i <= last
      ensures paras[i].inTable && TextAt(paras, texts, i) && PlainText(texts, i)
    {
      assert CellOfRow(paras, lo, last, i);
      CellTextAt(paras, i);
      CellContentOneLine(Some(paras[i].text));
    }
  }

  // ---- one iteration of the loop ----

  /** A table paragraph appends what processTableCell appends and keeps the state. */
  lemma TableStep(st: NumberingState, paras: seq<Paragraph>, i: nat)
    requires Valid(st) && i < |paras| && paras[i].inTable && States(st, paras, i).Ok?
    ensures States(st, paras, i + 1) == States(st, paras, i)
    ensures Output(st, paras, i + 1)
         == Output(st, paras, i) + TableCellSegment(Output(st, paras, i), paras[i], CellContent(Some(paras[i].text)))
  {
    StatesTableCell(st, paras, i + 1);
    AppendedTableCell(st, paras, i + 1);
  }

  /** A paragraph outside tables and lists appends its normal segment and keeps the state. */
  lemma NormalStep(st: NumberingState, paras: seq<Paragraph>, i: nat)
    requires Valid(st) && i < |paras| && !paras[i].inTable && !paras[i].inList && States(st, paras, i).Ok?
    ensures States(st, paras, i + 1) == States(st, paras, i)
    ensures Output(st, paras, i + 1) == Output(st, paras, i) + NormalSegment(paras[i])
  {
    assert Appended(st, paras, i + 1) == NormalSegment(paras[i]);
  }

  /** A list item with a slot numbers itself and appends its number and text. */
  lemma ListStep(st: NumberingState, paras: seq<Paragraph>, i: nat)
    requires Valid(st) && i < |paras| && IsListItem(paras[i]) && !BadLevel(paras[i])
    requires States(st, paras, i).Ok?
    ensures var s := States(st, paras, i).value;
      && States(st, paras, i + 1) == Ok(Number(s, i, ListLevel(paras[i])))
      && Output(st, paras, i + 1) == Output(st, paras, i) + ListSegment(s, i, paras[i])
  {
    assert Appended(st, paras, i + 1) == ListSegment(States(st, paras, i).value, i, paras[i]);
  }

  /** A list item without a slot ends the whole run with its error and its failure state. */
  lemma ListFailure(st: NumberingState, paras: seq<Paragraph>, i: nat)
    requires Valid(st) && i < |paras| && BadLevel(paras[i]) && States(st, paras, i).Ok?
    ensures ExtractFrom(st, paras) == Err(LevelOutOfRange(i, paras[i].ilvl))
    ensures FinalState(st, paras) == FailureState(States(st, paras, i).value, i, paras[i])
  {
    FailureSticks(st, paras, i, |paras|);
  }

  /** The error of a list item without a slot is the error of every longer run. */
  lemma {:induction false} FailureSticks(st: NumberingState, paras: seq<Paragraph>, i: nat, k: nat)
    requires Valid(st) && i < k <= |paras| && BadLevel(paras[i]) && States(st, paras, i).Ok?
    ensures States(st, paras, k) == Err(LevelOutOfRange(i, paras[i].ilvl))
    decreases k
  {
    if k > i + 1 {
      FailureSticks(st, paras, i, k - 1);
    }
  }

  // ---- the state an exception leaves behind ----

  /** The counter state after a list item whose level has no slot: the gap reset, if due,
      then what updateCounters did before the failing access; lastLevel and
      lastParagraphNumber are not assigned, since the exception passes over both. */
  function FailureState(st: NumberingState, i: int, p: Paragraph): (r: NumberingState)
    requires Valid(st) && BadLevel(p)
    ensures Valid(r)
    ensures r.lastParagraphNumber == st.lastParagraphNumber
  {
    var before := if GapExceeded(st.lastParagraphNumber, i) then Reset(st) else st;
    NumberingState(FailedAdvance(before.counters, before.lastLevel, ListLevel(p)), before.lastLevel, before.lastParagraphNumber)
  }

  /** The loop reaches paragraph k without failing when no earlier list item is bad. */
  lemma StatesOkBefore(st: NumberingState, paras: seq<Paragraph>, k: nat)
    requires Valid(st) && k <= |paras|
    requires forall i :: 0 <= i < k ==> !BadLevel(paras[i])
    ensures States(st, paras, k).Ok?
  {
    StatesErrorIsFirstBadLevel(st, paras, k);
  }

  /** The error of a failed run names a paragraph the loop reached without failing. */
  lemma ErrorIndexReached(st: NumberingState, paras: seq<Paragraph>)
    requires Valid(st) && States(st, paras, |paras|).Err?
    ensures var i := States(st, paras, |paras|).error.index;
      0 <= i < |paras| && BadLevel(paras[i]) && States(st, paras, i).Ok?
  {
    StatesErrorIsFirstBadLevel(st, paras, |paras|);
    StatesOkBefore(st, paras, States(st, paras, |paras|).error.index);
  }

  /** The counter state extract leaves in the extractor, whether it returns or throws. */
  function FinalState(st: NumberingState, paras: seq<Paragraph>): (r: NumberingState)
    requires Valid(st)
    ensures Valid(r)
  {
    match States(st, paras, |paras|)
    case Ok(s) => s
    case Err(e) =>
      ErrorIndexReached(st, paras);
      FailureState(States(st, paras, e.index).value, e.index, paras[e.index])
  }

  // ---- extractFromFile ----

  /** What opening the stream gives: an IOException while the document is parsed, or the
      paragraphs, together with whether closing the document raises an IOException. */
  datatype FileOutcome = Unreadable | Parsed(paras: seq<Paragraph>, closeFails: bool)

  /** extractFromFile: a fresh extractor runs on the parsed document; an IOException, from
      parsing or from the close after a successful extract, turns the result into the
      empty string, while the failure of extract itself is not an IOException and escapes.
      What the extracted text holds is stated by the lemmas on Output and States above. */
  function FileResult(f: FileOutcome): (r: Result<string>)
    ensures f.Unreadable? ==> r == Ok([])
    ensures f.Parsed? && ExtractText(f.paras).Err? ==> r == ExtractText(f.paras)
    ensures f.Parsed? && ExtractText(f.paras).Ok? ==> r == if f.closeFails then Ok([]) else ExtractText(f.paras)
  {
    match f
    case Unreadable => Ok([])
    case Parsed(paras, closeFails) =>
      match ExtractText(paras)
      case Err(e) => Err(e)
      case Ok(text) => if closeFails then Ok([]) else Ok(text)
  }
}
