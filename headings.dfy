/** shouldAddSeparator: whether a normal paragraph gets a line of fifty '+' before it. */
module Headings {
  import opened JavaString
  import opened Document

  /** Texts longer than this never get a separator. */
  const MaxTitleLength := 20

  /** An indent from the left beyond this counts as heading layout. */
  const LargeIndent := 1000000

  /** The justification code for centred text. */
  const Centered := 1

  /** The number of '+' in the separator line. */
  const SeparatorWidth := 50

  /** The separator line: "+".repeat(50) and a line feed. */
  const Separator := Repeat("+", SeparatorWidth) + "\n"

  /** The endings that mark a sentence rather than a title, in the order they are tried. */
  const EndingMarks: seq<string> := ["。", "！", "!", "？", "?", ";", "；", ":", "：", "...", "★"]

  /** The numerals the title pattern allows: 一 to 十 and \d (ASCII digits only). */
  predicate IsTitleNumeral(c: char) {
    || c == '一' || c == '二' || c == '三' || c == '四' || c == '五'
    || c == '六' || c == '七' || c == '八' || c == '九' || c == '十'
    || IsAsciiDigit(c)
  }

  /** Character.isDigit, approximated by the ASCII and the full-width decimal digits. */
  predicate IsDigit(c: char) {
    IsAsciiDigit(c) || '０' <= c <= '９'
  }

  predicate NoLineTerminator(s: string) {
    forall i :: 0 <= i < |s| ==> !IsLineTerminator(s[i])
  }

  /** The length of the longest prefix made of title numerals. */
  function NumeralRun(s: string): (n: nat)
    ensures n <= |s|
    ensures forall i :: 0 <= i < n ==> IsTitleNumeral(s[i])
    ensures n == |s| || !IsTitleNumeral(s[n])
  {
    if |s| > 0 && IsTitleNumeral(s[0]) then 1 + NumeralRun(s[1..]) else 0
  }

  /** The part `[节]?.*$` of the pattern, with String.matches requiring the whole input. */
  predicate TailMatches(r: string) {
    (|r| > 0 && r[0] == '节' && NoLineTerminator(r[1..])) || NoLineTerminator(r)
  }

  /** The part `(章|部分)[节]?.*$`. */
  predicate KeywordMatches(u: string) {
    || (|u| >= 1 && u[0] == '章' && TailMatches(u[1..]))
    || (|u| >= 2 && u[0] == '部' && u[1] == '分' && TailMatches(u[2..]))
  }

  /** text.matches("^\\s*第[一二三四五六七八九十\\d]{1,3}(章|部分)[节]?.*$"), decided the way
      the pattern forces: skip the \s run, expect 第, take the whole run of numerals, and
      accept when it has one to three of them and a keyword follows. */
  predicate MatchesTitlePattern(s: string) {
    var t := DropSpaces(s);
    && |t| > 0
    && t[0] == '第'
    && var run := t[1..];
       var n := NumeralRun(run);
       1 <= n <= 3 && KeywordMatches(run[n..])
  }

  /** The part `[一二三四五六七八九十\d]{1,3}(章|部分)[节]?.*$` with the count fixed to k. */
  predicate NumeralsThenKeyword(run: string, k: int) {
    && 1 <= k <= 3
    && k <= |run|
    && (forall j :: 0 <= j < k ==> IsTitleNumeral(run[j]))
    && KeywordMatches(run[k..])
  }

  /** The pattern read as the set of strings it denotes: i chars of \s, then 第 at i, then
      k numerals with 1 <= k <= 3, then the keyword and the tail. */
  predicate TitleAt(s: string, i: int, k: int) {
    && 0 <= i < |s|
    && (forall j :: 0 <= j < i ==> IsRegexSpace(s[j]))
    && s[i] == '第'
    && NumeralsThenKeyword(s[i + 1..], k)
  }

  /** Membership in the language of the title pattern. */
  predicate IsTitle(s: string) {
    exists i, k | 0 <= i < |s| && 1 <= k <= 3 :: TitleAt(s, i, k)
  }

  /** The optional 节 adds nothing: `.` matches it anyway. */
  lemma TailMatchesIff(r: string)
    ensures TailMatches(r) <==> NoLineTerminator(r)
  {
    if |r| > 0 && r[0] == '节' && NoLineTerminator(r[1..]) {
      forall i | 0 <= i < |r| ensures !IsLineTerminator(r[i]) {
        if i > 0 { assert r[i] == r[1..][i - 1]; }
      }
    }
  }

  /** Every string the scan accepts is in the pattern's language. */
  lemma TitlePatternSound(s: string)
    requires MatchesTitlePattern(s)
    ensures TitleAt(s, |s| - |DropSpaces(s)|, NumeralRun(DropSpaces(s)[1..]))
  {
    var t := DropSpaces(s);
    var i0 := |s| - |t|;
    assert NumeralsThenKeyword(t[1..], NumeralRun(t[1..]));
    assert s[i0] == '第';
    assert t[1..] == s[i0 + 1..];
  }

  /** The numeral run of a string is k when k numerals are followed by a non-numeral. */
  lemma {:induction false} NumeralRunAt(s: string, k: nat)
    requires k < |s| && !IsTitleNumeral(s[k])
    requires forall j :: 0 <= j < k ==> IsTitleNumeral(s[j])
    ensures NumeralRun(s) == k
  {
    if k > 0 {
      NumeralRunAt(s[1..], k - 1);
    }
  }

  /** Every string in the pattern's language is accepted by the scan: no backtracking is
      ever needed, because \s, 第, the numerals and the keywords are disjoint classes. */
  lemma TitlePatternComplete(s: string, i: int, k: int)
    requires TitleAt(s, i, k)
    ensures MatchesTitlePattern(s)
  {
    DropSpacesAt(s, i);
    var run := s[i + 1..];
    assert s[i..][1..] == run;
    KeywordStart(run[k..]);
    assert run[k] == run[k..][0];
    NumeralRunAt(run, k);
    ScanAccepts(s, s[i..], run, k);
  }

  /** A keyword never starts with a numeral, so the numeral run stops before it. */
  lemma KeywordStart(u: string)
    requires KeywordMatches(u)
    ensures |u| > 0 && !IsTitleNumeral(u[0])
  {
  }

  /** The scan accepts s once its \s-free suffix is 第 and a run of k numerals. */
  lemma ScanAccepts(s: string, t: string, run: string, k: int)
    requires DropSpaces(s) == t && |t| > 0 && t[0] == '第' && t[1..] == run
    requires NumeralRun(run) == k && NumeralsThenKeyword(run, k)
    ensures MatchesTitlePattern(s)
  {
  }

  /** The scan and the pattern's language agree. */
  lemma TitlePatternIff(s: string)
    ensures MatchesTitlePattern(s) <==> IsTitle(s)
  {
    if MatchesTitlePattern(s) {
      TitlePatternSound(s);
    }
    if IsTitle(s) {
      var i, k :| TitleAt(s, i, k);
      TitlePatternComplete(s, i, k);
    }
  }

  /** A text the pattern accepts keeps its 第 when trimmed, so its trim is not empty. */
  lemma TitleSurvivesTrim(s: string)
    requires MatchesTitlePattern(s)
    ensures |Trim(s)| > 0
  {
    var t := DropSpaces(s);
    assert s[|s| - |t|] == t[0];
    TrimEmptyIff(s);
  }

  /** The for loop over the end marks: true as soon as one of them ends s. */
  function EndsWithAny(s: string, marks: seq<string>): bool {
    |marks| > 0 && (EndsWith(s, marks[0]) || EndsWithAny(s, marks[1..]))
  }

  /** The style test: a non-default style, or the default style with a large indent or
      centred justification. */
  predicate LooksLikeHeading(p: Paragraph) {
    var isNormalOrText := p.styleIndex == 0;
    !isNormalOrText || (isNormalOrText && (p.indentFromLeft > LargeIndent || p.justification == Centered))
  }

  /** shouldAddSeparator(para, text), checks in the order the source makes them. */
  function ShouldAddSeparator(p: Paragraph, text: string): bool {
    if |text| > MaxTitleLength then false
    else if !MatchesTitlePattern(text) then false
    else
      var trimmed := Trim(text);
      TitleSurvivesTrim(text);
      if EndsWithAny(trimmed, EndingMarks) then false
      else if IsDigit(trimmed[|trimmed| - 1]) then false
      else LooksLikeHeading(p)
  }

  lemma {:induction false} EndsWithAnyIff(s: string, marks: seq<string>)
    ensures EndsWithAny(s, marks) <==> exists j :: 0 <= j < |marks| && EndsWith(s, marks[j])
  {
    if |marks| > 0 {
      EndsWithAnyIff(s, marks[1..]);
      forall j | 1 <= j < |marks| ensures marks[j] == marks[1..][j - 1] { }
    }
  }

  /** A sentence-ending char: every one-char end mark. */
  predicate IsSentenceEnd(c: char) {
    c == '。' || c == '！' || c == '!' || c == '？' || c == '?' || c == ';' || c == '；'
    || c == ':' || c == '：' || c == '★'
  }

  /** An end mark of the list's kind: "..." or a single sentence-ending char. */
  predicate IsMarkShape(m: string) {
    m == "..." || (|m| == 1 && IsSentenceEnd(m[0]))
  }

  /** The end marks one by one: all but "..." are single chars. */
  lemma EndingMarkShape(j: int)
    requires 0 <= j < |EndingMarks|
    ensures j == 9 ==> EndingMarks[j] == "..."
    ensures j != 9 ==> |EndingMarks[j]| == 1 && IsSentenceEnd(EndingMarks[j][0])
  {
  }

  /** Every one-char end mark is in the list. */
  lemma SentenceEndListed(c: char)
    requires IsSentenceEnd(c)
    ensures exists j :: 0 <= j < |EndingMarks| && EndingMarks[j] == [c]
  {
    var m := EndingMarks;
    if c == '。' { assert m[0] == [c]; }
    else if c == '！' { assert m[1] == [c]; }
    else if c == '!' { assert m[2] == [c]; }
    else if c == '？' { assert m[3] == [c]; }
    else if c == '?' { assert m[4] == [c]; }
    else if c == ';' { assert m[5] == [c]; }
    else if c == '；' { assert m[6] == [c]; }
    else if c == ':' { assert m[7] == [c]; }
    else if c == '：' { assert m[8] == [c]; }
    else { assert m[10] == [c]; }
  }

  /** A string that a loop over marks of that kind flags ends with a sentence-ending char
      or with "...". */
  lemma {:induction false} EndsWithShapedMark(s: string, marks: seq<string>)
    requires forall j :: 0 <= j < |marks| ==> IsMarkShape(marks[j])
    requires EndsWithAny(s, marks)
    ensures (|s| > 0 && IsSentenceEnd(s[|s| - 1])) || EndsWith(s, "...")
  {
    var m := marks[0];
    assert IsMarkShape(m);
    if EndsWith(s, m) {
      if m != "..." {
        assert m == [m[0]];
        EndsWithChar(s, m[0]);
      }
    } else {
      forall j | 0 <= j < |marks| - 1 ensures IsMarkShape(marks[1..][j]) {
        assert marks[1..][j] == marks[j + 1];
      }
      EndsWithShapedMark(s, marks[1..]);
    }
  }

  /** A string the end-mark loop flags ends with a sentence-ending char or with "...". */
  lemma EndsWithMarkSound(s: string)
    requires EndsWithAny(s, EndingMarks)
    ensures (|s| > 0 && IsSentenceEnd(s[|s| - 1])) || EndsWith(s, "...")
  {
    forall j | 0 <= j < |EndingMarks| ensures IsMarkShape(EndingMarks[j]) {
      EndingMarkShape(j);
    }
    EndsWithShapedMark(s, EndingMarks);
  }

  /** A string ending with a sentence-ending char or with "..." is flagged by the loop. */
  lemma EndsWithMarkComplete(s: string)
    requires (|s| > 0 && IsSentenceEnd(s[|s| - 1])) || EndsWith(s, "...")
    ensures EndsWithAny(s, EndingMarks)
  {
    EndsWithAnyIff(s, EndingMarks);
    if |s| > 0 && IsSentenceEnd(s[|s| - 1]) {
      var c := s[|s| - 1];
      SentenceEndListed(c);
      var j :| 0 <= j < |EndingMarks| && EndingMarks[j] == [c];
      EndsWithChar(s, c);
      assert EndsWith(s, EndingMarks[j]);
    } else {
      assert EndingMarks[9] == "...";
    }
  }

  /** The end-mark loop in terms of the last char: a one-char mark, or "...". */
  lemma EndsWithMarkIff(s: string)
    ensures EndsWithAny(s, EndingMarks) <==> (|s| > 0 && IsSentenceEnd(s[|s| - 1])) || EndsWith(s, "...")
  {
    if EndsWithAny(s, EndingMarks) {
      EndsWithMarkSound(s);
    }
    if (|s| > 0 && IsSentenceEnd(s[|s| - 1])) || EndsWith(s, "...") {
      EndsWithMarkComplete(s);
    }
  }

  /** The separator decision in full: short enough, a title by the pattern's language, no
      sentence ending, no final digit, and heading-like style or layout. */
  lemma SeparatorIff(p: Paragraph, text: string)
    ensures ShouldAddSeparator(p, text) <==>
      && |text| <= MaxTitleLength
      && IsTitle(text)
      && var t := Trim(text);
         && |t| > 0
         && !IsSentenceEnd(t[|t| - 1])
         && !EndsWith(t, "...")
         && !IsDigit(t[|t| - 1])
         && (p.styleIndex != 0 || p.indentFromLeft > LargeIndent || p.justification == Centered)
  {
    TitlePatternIff(text);
    if |text| <= MaxTitleLength && MatchesTitlePattern(text) {
      TitleSurvivesTrim(text);
      EndsWithMarkIff(Trim(text));
    }
  }
}
