/** The hierarchical counter engine: ten per-level counters, the level of the last
    numbered item, the position of the last numbered paragraph, and the dotted number
    rendered from them. */
module Numbering {
  import opened JavaString

  /** new int[10]: the number of counter slots, so list levels run from 1 to 10. */
  const CounterSlots := 10

  /** MAX_PARAGRAPH_GAP. */
  const MaxParagraphGap := 6

  /** No numbered paragraph seen yet. */
  const NoParagraph := -1

  datatype NumberingState = NumberingState(counters: seq<int>, lastLevel: int, lastParagraphNumber: int)

  function Zeros(n: nat): (r: seq<int>)
    ensures |r| == n && forall j :: 0 <= j < n ==> r[j] == 0
  {
    if n == 0 then [] else Zeros(n - 1) + [0]
  }

  /** The state of a freshly constructed extractor. */
  function Initial(): NumberingState {
    NumberingState(Zeros(CounterSlots), 0, NoParagraph)
  }

  /** What every reachable state satisfies: ten non-negative counters, a last level
      between 0 and 10, and every slot at or beyond the last level equal to zero. */
  predicate Valid(st: NumberingState) {
    && |st.counters| == CounterSlots
    && 0 <= st.lastLevel <= CounterSlots
    && (forall j :: 0 <= j < CounterSlots ==> st.counters[j] >= 0)
    && (forall j :: st.lastLevel <= j < CounterSlots ==> st.counters[j] == 0)
    && st.lastParagraphNumber >= NoParagraph
  }

  /** shouldResetCounters: no reset before the first numbered paragraph, otherwise a reset
      when more than MaxParagraphGap positions separate it from the current one. */
  predicate GapExceeded(lastParagraphNumber: int, current: int) {
    lastParagraphNumber != NoParagraph && current - lastParagraphNumber > MaxParagraphGap
  }

  /** resetCounters: all counters zero and no last level; the last position is kept. */
  function Reset(st: NumberingState): (r: NumberingState)
    ensures |r.counters| == |st.counters| && forall j :: 0 <= j < |r.counters| ==> r.counters[j] == 0
    ensures r.lastLevel == 0 && r.lastParagraphNumber == st.lastParagraphNumber
  {
    NumberingState(Zeros(|st.counters|), 0, st.lastParagraphNumber)
  }

  /** updateCounters(level): the slot of the level rises by one, shallower slots keep their
      value, and deeper slots are cleared exactly when the level does not go deeper than
      the last one. */
  function Advance(cs: seq<int>, lastLevel: int, level: int): (r: seq<int>)
    requires 1 <= level <= |cs|
    ensures |r| == |cs|
    ensures r[level - 1] == cs[level - 1] + 1
    ensures forall j :: 0 <= j < level - 1 ==> r[j] == cs[j]
    ensures forall j :: level <= j < |cs| ==> r[j] == if level <= lastLevel then 0 else cs[j]
  {
    cs[..level - 1] + [cs[level - 1] + 1] + (if level <= lastLevel then Zeros(|cs| - level) else cs[level..])
  }

  /** updateCounters(level) for a level without a slot: the array access that fails is
      counters[level] in the clearing loop when level is negative, and counters[level - 1]
      after it otherwise, so only level 0 clears anything (all the slots) before the
      exception. */
  function FailedAdvance(cs: seq<int>, lastLevel: int, level: int): (r: seq<int>)
    requires !(1 <= level <= |cs|)
    ensures |r| == |cs|
    ensures level == 0 && 0 <= lastLevel ==> forall j :: 0 <= j < |r| ==> r[j] == 0
    ensures !(level == 0 && 0 <= lastLevel) ==> r == cs
  {
    if level == 0 && 0 <= lastLevel then Zeros(|cs|) else cs
  }

  /** A state after a numbered item at the given level, with the gap reset applied first. */
  function Number(st: NumberingState, index: int, level: int): (r: NumberingState)
    requires |st.counters| == CounterSlots && 1 <= level <= CounterSlots
  {
    var before := if GapExceeded(st.lastParagraphNumber, index) then Reset(st) else st;
    NumberingState(Advance(before.counters, before.lastLevel, level), level, index)
  }

  /** In a valid state the branch on lastLevel makes no difference: numbering at a level
      keeps the shallower slots, adds one to its own and leaves every deeper slot zero. */
  lemma AdvanceInValidState(st: NumberingState, level: int)
    requires Valid(st) && 1 <= level <= CounterSlots
    ensures Advance(st.counters, st.lastLevel, level)
         == st.counters[..level - 1] + [st.counters[level - 1] + 1] + Zeros(CounterSlots - level)
  {
    var r := Advance(st.counters, st.lastLevel, level);
    var e := st.counters[..level - 1] + [st.counters[level - 1] + 1] + Zeros(CounterSlots - level);
    forall j | 0 <= j < CounterSlots ensures r[j] == e[j] {
      if j >= level {
        assert e[j] == Zeros(CounterSlots - level)[j - level];
      }
    }
  }

  /** Numbering keeps the state valid. */
  lemma NumberValid(st: NumberingState, index: int, level: int)
    requires Valid(st) && 1 <= level <= CounterSlots && index >= 0
    ensures Valid(Number(st, index, level))
  {
    var before := if GapExceeded(st.lastParagraphNumber, index) then Reset(st) else st;
    assert Valid(before);
    AdvanceInValidState(before, level);
  }

  lemma InitialValid()
    ensures Valid(Initial())
  {
  }

  /** generateNumber: the counters joined by dots, in slot order. */
  function DotPath(cs: seq<int>): string {
    if |cs| == 0 then []
    else if |cs| == 1 then IntToString(cs[0])
    else DotPath(cs[..|cs| - 1]) + "." + IntToString(cs[|cs| - 1])
  }

  /** Cutting a string at every dot: the inverse of joining with dots. */
  function SplitDots(s: string): (r: seq<string>)
    ensures |r| >= 1
    decreases |s|
  {
    var k := LastIndexOf(s, '.');
    if k < 0 then [s] else SplitDots(s[..k]) + [s[k + 1..]]
  }

  /** Cutting after one more dot-free segment adds that segment at the end. */
  lemma SplitDotsSnoc(a: string, last: string)
    requires '.' !in last
    ensures SplitDots(a + "." + last) == SplitDots(a) + [last]
  {
    var s := a + "." + last;
    assert s == a + ['.'] + last;
    LastIndexOfSplit(a, '.', last);
    assert s[..|a|] == a;
    assert s[|a| + 1..] == last;
  }

  /** A dotted number has exactly one segment per counter, segment j being counter j
      rendered in decimal; so it holds |cs| - 1 dots. */
  lemma {:induction false} DotPathSegments(cs: seq<int>)
    requires |cs| >= 1
    ensures |SplitDots(DotPath(cs))| == |cs|
    ensures forall j :: 0 <= j < |cs| ==> SplitDots(DotPath(cs))[j] == IntToString(cs[j])
  {
    if |cs| == 1 {
      LastIndexOfAbsent(IntToString(cs[0]), '.');
    } else {
      var init := cs[..|cs| - 1];
      var last := IntToString(cs[|cs| - 1]);
      SplitDotsSnoc(DotPath(init), last);
      DotPathSegments(init);
      var r := SplitDots(DotPath(cs));
      SegmentsSnoc(cs, init, SplitDots(DotPath(init)), r);
    }
  }

  /** Segments that render the counters but the last, and the last one rendered. */
  lemma SegmentsSnoc(cs: seq<int>, init: seq<int>, front: seq<string>, r: seq<string>)
    requires |cs| >= 2 && init == cs[..|cs| - 1] && r == front + [IntToString(cs[|cs| - 1])]
    requires |front| == |init| && forall j :: 0 <= j < |init| ==> front[j] == IntToString(init[j])
    ensures |r| == |cs| && forall j :: 0 <= j < |cs| ==> r[j] == IntToString(cs[j])
  {
    forall j | 0 <= j < |cs| ensures r[j] == IntToString(cs[j]) {
      if j < |cs| - 1 {
        assert r[j] == front[j] && cs[j] == init[j];
      }
    }
  }

  /** Reading the dotted number back gives the counters. */
  lemma DotPathDecodes(cs: seq<int>)
    requires |cs| >= 1
    ensures |SplitDots(DotPath(cs))| == |cs|
    ensures forall j :: 0 <= j < |cs| ==> ParseInt(SplitDots(DotPath(cs))[j]) == cs[j]
  {
    DotPathSegments(cs);
    forall j | 0 <= j < |cs| ensures ParseInt(SplitDots(DotPath(cs))[j]) == cs[j] {
      ParseIntToString(cs[j]);
    }
  }

  lemma {:induction false} DotPathDots(cs: seq<int>)
    requires |cs| >= 1
    ensures Count(DotPath(cs), '.') == |cs| - 1
  {
    if |cs| == 1 {
      CountAbsent(IntToString(cs[0]), '.');
    } else {
      var init := cs[..|cs| - 1];
      var last := IntToString(cs[|cs| - 1]);
      DotPathDots(init);
      CountAppend(DotPath(init) + ".", last, '.');
      CountAppend(DotPath(init), ".", '.');
      CountAbsent(last, '.');
    }
  }
}
