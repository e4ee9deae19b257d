/** processCellContent: normalising the text of one table cell. */
module CellText {
  import opened JavaString

  datatype Option<T> = None | Some(value: T)

  /** The token a line break inside a cell becomes. */
  const LineBreakToken := "<br>"

  /** The marker written for a null or blank cell. */
  const EmptyCell := "-"

  /** replaceAll("\\r?\\n", "<br>"): scanning left to right, "\r\n" and a lone "\n" each
      become "<br>"; a lone "\r" stays. */
  function ReplaceLineBreaks(s: string): string
    decreases |s|
  {
    if |s| == 0 then []
    else if |s| >= 2 && s[0] == '\r' && s[1] == '\n' then LineBreakToken + ReplaceLineBreaks(s[2..])
    else if s[0] == '\n' then LineBreakToken + ReplaceLineBreaks(s[1..])
    else [s[0]] + ReplaceLineBreaks(s[1..])
  }

  /** replaceAll("\\s+", " "): every maximal run of \s chars becomes one space. */
  function CollapseSpaces(s: string): string
    decreases |s|
  {
    if |s| == 0 then []
    else if IsRegexSpace(s[0]) then " " + CollapseSpaces(DropSpaces(s[1..]))
    else [s[0]] + CollapseSpaces(s[1..])
  }

  /** processCellContent; None stands for a null cell text. */
  function CellContent(cell: Option<string>): string {
    match cell
    case None => EmptyCell
    case Some(s) =>
      var t := Trim(s);
      if |t| == 0 then EmptyCell else CollapseSpaces(ReplaceLineBreaks(t))
  }

  /** A string in the form CollapseSpaces leaves: every \s char is a plain space and no
      two \s chars are adjacent. */
  predicate SpacesCollapsed(s: string) {
    && (forall i :: 0 <= i < |s| && IsRegexSpace(s[i]) ==> s[i] == ' ')
    && (forall i :: 0 <= i < |s| - 1 ==> !(IsRegexSpace(s[i]) && IsRegexSpace(s[i + 1])))
  }

  // ---- ReplaceLineBreaks ----

  lemma {:induction false} ReplaceLineBreaksNoNewline(s: string)
    ensures '\n' !in ReplaceLineBreaks(s)
    decreases |s|
  {
    if |s| == 0 {
    } else if |s| >= 2 && s[0] == '\r' && s[1] == '\n' {
      ReplaceLineBreaksNoNewline(s[2..]);
    } else if s[0] == '\n' {
      ReplaceLineBreaksNoNewline(s[1..]);
    } else {
      ReplaceLineBreaksNoNewline(s[1..]);
    }
  }

  /** Text without a line feed passes through unchanged. */
  lemma {:induction false} ReplaceLineBreaksIdentity(s: string)
    requires '\n' !in s
    ensures ReplaceLineBreaks(s) == s
  {
    if |s| > 0 {
      assert '\n' !in s[1..];
      ReplaceLineBreaksIdentity(s[1..]);
      assert [s[0]] + s[1..] == s;
    }
  }

  lemma ReplaceLineBreaksCrLf(t: string)
    ensures ReplaceLineBreaks("\r\n" + t) == LineBreakToken + ReplaceLineBreaks(t)
  {
    assert ("\r\n" + t)[2..] == t;
  }

  lemma ReplaceLineBreaksLf(t: string)
    ensures ReplaceLineBreaks("\n" + t) == LineBreakToken + ReplaceLineBreaks(t)
  {
    assert ("\n" + t)[1..] == t;
  }

  lemma ReplaceLineBreaksKeep(c: char, t: string)
    requires c != '\n' && !(c == '\r' && |t| > 0 && t[0] == '\n')
    ensures ReplaceLineBreaks([c] + t) == [c] + ReplaceLineBreaks(t)
  {
    assert ([c] + t)[1..] == t;
  }

  /** The scan restarts at any cut that does not split a "\r\n" pair: replacing in the
      concatenation is replacing in each piece. */
  lemma {:induction false} ReplaceLineBreaksAppend(x: string, y: string)
    requires !(|x| > 0 && x[|x| - 1] == '\r' && |y| > 0 && y[0] == '\n')
    ensures ReplaceLineBreaks(x + y) == ReplaceLineBreaks(x) + ReplaceLineBreaks(y)
    decreases |x|
  {
    if |x| == 0 {
      assert x + y == y;
    } else {
      var k := if |x| >= 2 && x[0] == '\r' && x[1] == '\n' then 2 else 1;
      var p := x[..k];
      var t := x[k..];
      var head := if k == 2 || x[0] == '\n' then LineBreakToken else p;
      assert x + y == p + (t + y);
      assert x == p + t;
      ScanHead(x, y, k, p, t);
      ReplaceLineBreaksStep(p, t + y, head);
      ReplaceLineBreaksStep(p, t, head);
      ReplaceLineBreaksAppend(t, y);
      JoinHead(ReplaceLineBreaks(p + (t + y)), ReplaceLineBreaks(p + t), head,
        ReplaceLineBreaks(t), ReplaceLineBreaks(y));
    }
  }

  /** The first piece of the scan of x + y: "\r\n", "\n", or a char that does not start
      a pair, in x + y and in x alike. */
  lemma ScanHead(x: string, y: string, k: nat, p: string, t: string)
    requires |x| > 0 && !(x[|x| - 1] == '\r' && |y| > 0 && y[0] == '\n')
    requires k == (if |x| >= 2 && x[0] == '\r' && x[1] == '\n' then 2 else 1)
    requires p == x[..k] && t == x[k..]
    ensures p == "\r\n" || p == "\n" || (|p| == 1 && p[0] != '\n' && !(p[0] == '\r' && |t + y| > 0 && (t + y)[0] == '\n'))
    ensures p == "\r\n" || p == "\n" || (|p| == 1 && p[0] != '\n' && !(p[0] == '\r' && |t| > 0 && t[0] == '\n'))
    ensures !(|t| > 0 && t[|t| - 1] == '\r' && |y| > 0 && y[0] == '\n')
  {
    if k == 2 {
      assert p == "\r\n";
    } else if x[0] == '\n' {
      assert p == "\n";
    } else if |t| > 0 {
      assert (t + y)[0] == t[0] == x[1];
      assert t[|t| - 1] == x[|x| - 1];
    }
  }

  /** Regrouping for ReplaceLineBreaksAppend: the scan of x + y is the scan of x followed
      by the scan of y. */
  lemma JoinHead(whole: string, first: string, head: string, rt: string, ry: string)
    requires first == head + rt
    requires whole == head + (rt + ry)
    ensures whole == first + ry
  {
  }

  /** A "\r\n" between two pieces becomes "<br>". */
  lemma ReplaceLineBreaksAtCrLf(a: string, b: string)
    ensures ReplaceLineBreaks(a + "\r\n" + b) == ReplaceLineBreaks(a) + LineBreakToken + ReplaceLineBreaks(b)
  {
    assert a + "\r\n" + b == a + ("\r\n" + b);
    ReplaceLineBreaksAppend(a, "\r\n" + b);
    ReplaceLineBreaksCrLf(b);
  }

  /** A lone "\n" between two pieces becomes "<br>", provided the first piece does not end
      in "\r" (which would make the pair a "\r\n"). */
  lemma ReplaceLineBreaksAtLf(a: string, b: string)
    requires |a| == 0 || a[|a| - 1] != '\r'
    ensures ReplaceLineBreaks(a + "\n" + b) == ReplaceLineBreaks(a) + LineBreakToken + ReplaceLineBreaks(b)
  {
    assert a + "\n" + b == a + ("\n" + b);
    ReplaceLineBreaksAppend(a, "\n" + b);
    ReplaceLineBreaksLf(b);
  }

  /** One step of the scan: the first one or two chars of a string become head. */
  lemma ReplaceLineBreaksStep(p: string, t: string, head: string)
    requires p == "\r\n" || p == "\n" || (|p| == 1 && p[0] != '\n' && !(p[0] == '\r' && |t| > 0 && t[0] == '\n'))
    requires head == (if p == "\r\n" || p == "\n" then LineBreakToken else p)
    ensures ReplaceLineBreaks(p + t) == head + ReplaceLineBreaks(t)
  {
    if p == "\r\n" {
      ReplaceLineBreaksCrLf(t);
    } else if p == "\n" {
      ReplaceLineBreaksLf(t);
    } else {
      assert p == [p[0]];
      ReplaceLineBreaksKeep(p[0], t);
    }
  }

  lemma {:induction false} ReplaceLineBreaksFirst(s: string)
    requires |s| > 0 && s[0] != '\n' && s[0] != '\r'
    ensures |ReplaceLineBreaks(s)| > 0 && ReplaceLineBreaks(s)[0] == s[0]
  {
  }

  lemma {:induction false} ReplaceLineBreaksLast(s: string)
    requires |s| > 0 && s[|s| - 1] != '\n'
    ensures |ReplaceLineBreaks(s)| > 0
    ensures ReplaceLineBreaks(s)[|ReplaceLineBreaks(s)| - 1] == s[|s| - 1]
    decreases |s|
  {
    if |s| >= 2 && s[0] == '\r' && s[1] == '\n' {
      ReplaceLineBreaksLast(s[2..]);
      LastAfter(LineBreakToken, ReplaceLineBreaks(s[2..]));
    } else if s[0] == '\n' {
      ReplaceLineBreaksLast(s[1..]);
      LastAfter(LineBreakToken, ReplaceLineBreaks(s[1..]));
    } else if |s| > 1 {
      ReplaceLineBreaksLast(s[1..]);
      LastAfter([s[0]], ReplaceLineBreaks(s[1..]));
    }
  }

  /** The last character of a concatenation with a non-empty tail is the tail's. */
  lemma LastAfter(h: string, r: string)
    requires |r| > 0
    ensures |h + r| > 0 && (h + r)[|h + r| - 1] == r[|r| - 1]
  {
  }

  // ---- CollapseSpaces ----

  lemma CollapseSpacesFirst(s: string)
    requires |s| > 0 && !IsRegexSpace(s[0])
    ensures |CollapseSpaces(s)| > 0 && CollapseSpaces(s)[0] == s[0]
  {
  }

  lemma {:induction false} CollapseSpacesLast(s: string)
    requires |s| > 0 && !IsRegexSpace(s[|s| - 1])
    ensures |CollapseSpaces(s)| > 0
    ensures CollapseSpaces(s)[|CollapseSpaces(s)| - 1] == s[|s| - 1]
    decreases |s|
  {
    if IsRegexSpace(s[0]) {
      var t := DropSpaces(s[1..]);
      assert |t| > 0 && t[|t| - 1] == s[|s| - 1];
      CollapseSpacesLast(t);
    } else if |s| > 1 {
      CollapseSpacesLast(s[1..]);
    }
  }

  /** A character in front of a collapsed string keeps it collapsed when it is a plain
      space followed by no space, or no space at all. */
  lemma ConsCollapsed(c: char, r: string)
    requires SpacesCollapsed(r)
    requires IsRegexSpace(c) ==> c == ' ' && (|r| > 0 ==> !IsRegexSpace(r[0]))
    ensures SpacesCollapsed([c] + r)
  {
    var t := [c] + r;
    forall i | 0 <= i < |t| && IsRegexSpace(t[i]) ensures t[i] == ' ' {
      if i > 0 { assert t[i] == r[i - 1]; }
    }
    forall i | 0 <= i < |t| - 1 ensures !(IsRegexSpace(t[i]) && IsRegexSpace(t[i + 1])) {
      if i > 0 { assert t[i] == r[i - 1] && t[i + 1] == r[i]; }
    }
  }

  /** The output of CollapseSpaces has only single plain spaces between words. */
  lemma {:induction false} CollapseSpacesCollapsed(s: string)
    ensures SpacesCollapsed(CollapseSpaces(s))
    decreases |s|
  {
    if |s| == 0 {
    } else if IsRegexSpace(s[0]) {
      var t := DropSpaces(s[1..]);
      CollapseSpacesCollapsed(t);
      if |t| > 0 {
        CollapseSpacesFirst(t);
      }
      ConsCollapsed(' ', CollapseSpaces(t));
    } else {
      CollapseSpacesCollapsed(s[1..]);
      ConsCollapsed(s[0], CollapseSpaces(s[1..]));
    }
  }

  /** A collapsed string is a fixed point of CollapseSpaces. */
  lemma {:induction false} CollapseSpacesFixpoint(s: string)
    requires SpacesCollapsed(s)
    ensures CollapseSpaces(s) == s
    decreases |s|
  {
    if |s| > 0 {
      assert SpacesCollapsed(s[1..]) by {
        forall i | 0 <= i < |s| - 1 && IsRegexSpace(s[1..][i]) ensures s[1..][i] == ' ' {
          assert s[1..][i] == s[i + 1];
        }
        forall i | 0 <= i < |s| - 2
          ensures !(IsRegexSpace(s[1..][i]) && IsRegexSpace(s[1..][i + 1]))
        {
          assert s[1..][i] == s[i + 1] && s[1..][i + 1] == s[i + 2];
        }
      }
      if IsRegexSpace(s[0]) {
        assert |s| > 1 ==> !IsRegexSpace(s[1]);
        assert DropSpaces(s[1..]) == s[1..];
      }
      CollapseSpacesFixpoint(s[1..]);
      assert [s[0]] + s[1..] == s;
    }
  }

  /** One step of CollapseSpaces: a leading \s run becomes one space, any other char is
      kept. */
  lemma {:induction false} CollapseSpacesUnfold(s: string)
    requires |s| > 0
    ensures CollapseSpaces(s)
         == if IsRegexSpace(s[0]) then " " + CollapseSpaces(DropSpaces(s[1..])) else [s[0]] + CollapseSpaces(s[1..])
  {
  }

  /** A run of \s chars in front of text that does not start with one becomes one space. */
  lemma {:induction false} CollapseSpacesRunFirst(w: string, y: string)
    requires |w| > 0 && AllRegexSpace(w)
    requires |y| == 0 || !IsRegexSpace(y[0])
    ensures CollapseSpaces(w + y) == " " + CollapseSpaces(y)
  {
    var s := w + y;
    DropSpacesOfRun(w, y);
    assert IsRegexSpace(s[0]);
    assert DropSpaces(s) == DropSpaces(s[1..]);
    CollapseSpacesUnfold(s);
  }

  /** Each maximal run of \s chars becomes exactly one space and the text on either side
      is collapsed on its own: a run w that the chars around it do not extend. */
  lemma {:induction false} CollapseSpacesRun(x: string, w: string, y: string)
    requires |w| > 0 && AllRegexSpace(w)
    requires |x| == 0 || !IsRegexSpace(x[|x| - 1])
    requires |y| == 0 || !IsRegexSpace(y[0])
    ensures CollapseSpaces(x + w + y) == CollapseSpaces(x) + " " + CollapseSpaces(y)
    decreases |x|, 1
  {
    if |x| == 0 {
      assert x + w + y == w + y;
      CollapseSpacesRunFirst(w, y);
    } else if IsRegexSpace(x[0]) {
      RunAfterSpace(x, w, y);
    } else {
      RunAfterChar(x, w, y);
    }
  }

  /** CollapseSpacesRun when x starts with a char outside \s: that char is kept. */
  lemma {:induction false} RunAfterChar(x: string, w: string, y: string)
    requires |w| > 0 && AllRegexSpace(w)
    requires |x| > 0 && !IsRegexSpace(x[0]) && !IsRegexSpace(x[|x| - 1])
    requires |y| == 0 || !IsRegexSpace(y[0])
    ensures CollapseSpaces(x + w + y) == CollapseSpaces(x) + " " + CollapseSpaces(y)
    decreases |x|, 0
  {
    var s := x + w + y;
    var t := x[1..];
    assert s[0] == x[0];
    assert s[1..] == t + w + y;
    CollapseSpacesUnfold(s);
    CollapseSpacesUnfold(x);
    CollapseSpacesRun(t, w, y);
    JoinRun(CollapseSpaces(s), CollapseSpaces(x), [x[0]], CollapseSpaces(t), CollapseSpaces(y));
  }

  /** CollapseSpacesRun when x starts with a \s run: the run ends inside x and becomes
      one space. */
  lemma {:induction false} RunAfterSpace(x: string, w: string, y: string)
    requires |w| > 0 && AllRegexSpace(w)
    requires |x| > 0 && IsRegexSpace(x[0]) && !IsRegexSpace(x[|x| - 1])
    requires |y| == 0 || !IsRegexSpace(y[0])
    ensures CollapseSpaces(x + w + y) == CollapseSpaces(x) + " " + CollapseSpaces(y)
    decreases |x|, 0
  {
    var d := SpaceSplit(x, w, y);
    CollapseSpacesRun(d, w, y);
    JoinRun(CollapseSpaces(x + w + y), CollapseSpaces(x), " ", CollapseSpaces(d), CollapseSpaces(y));
  }

  /** The leading \s run of x, ending inside x, becomes one space in x and in x + w + y
      alike; d is what follows it. */
  lemma {:induction false} SpaceSplit(x: string, w: string, y: string) returns (d: string)
    requires |x| > 0 && IsRegexSpace(x[0]) && !IsRegexSpace(x[|x| - 1])
    ensures 0 < |d| < |x| && !IsRegexSpace(d[|d| - 1])
    ensures CollapseSpaces(x + w + y) == " " + CollapseSpaces(d + w + y)
    ensures CollapseSpaces(x) == " " + CollapseSpaces(d)
  {
    d := DropSpaces(x[1..]);
    RunEndsInside(x, x[1..], d);
    SpaceHead(x, w + y, d);
    assert x + w + y == x + (w + y) && d + (w + y) == d + w + y;
  }

  /** A leading \s run of x that ends inside x is the leading run of x + v too. */
  lemma {:induction false} SpaceHead(x: string, v: string, d: string)
    requires |x| > 0 && IsRegexSpace(x[0])
    requires d == DropSpaces(x[1..]) && |d| > 0
    ensures CollapseSpaces(x + v) == " " + CollapseSpaces(d + v)
    ensures CollapseSpaces(x) == " " + CollapseSpaces(d)
  {
    var s := x + v;
    assert s[0] == x[0];
    assert s[1..] == x[1..] + v;
    CollapseSpacesUnfold(s);
    CollapseSpacesUnfold(x);
    DropSpacesAppend(x[1..], v);
  }

  /** Regrouping for RunAfterChar and RunAfterSpace: the collapsed text around the run
      is the collapsed x, one space and the collapsed y. */
  lemma JoinRun(whole: string, first: string, h: string, a: string, cy: string)
    requires first == h + a
    requires whole == h + (a + " " + cy)
    ensures whole == first + " " + cy
  {
  }

  /** The \s run after the first char of x stops inside x when x ends in another char. */
  lemma {:induction false} RunEndsInside(x: string, t: string, d: string)
    requires |x| > 0 && IsRegexSpace(x[0]) && !IsRegexSpace(x[|x| - 1])
    requires t == x[1..] && d == DropSpaces(t)
    ensures |d| > 0 && !IsRegexSpace(d[|d| - 1])
  {
    var c := x[|x| - 1];
    assert |t| > 0 && t[|t| - 1] == c;
    DropSpacesKeepsLast(t, d, c);
  }

  lemma {:induction false} DropSpacesKeepsLast(t: string, d: string, c: char)
    requires |t| > 0 && t[|t| - 1] == c && !IsRegexSpace(c)
    requires d == DropSpaces(t)
    ensures |d| > 0 && d[|d| - 1] == c
  {
    var k := |t| - |d|;
    assert d == t[k..];
    assert k < |t|;
    assert d[|d| - 1] == t[|t| - 1];
  }


  // ---- processCellContent ----

  /** Null and blank cells become "-". */
  lemma CellContentBlank(cell: Option<string>)
    requires cell.None? || forall i :: 0 <= i < |cell.value| ==> IsTrimmable(cell.value[i])
    ensures CellContent(cell) == EmptyCell
  {
    if cell.Some? {
      TrimEmptyIff(cell.value);
    }
  }

  /** What a non-blank cell becomes: a non-empty string with no line feed or carriage
      return, with single plain spaces only, and with no char up to U+0020 at either end. */
  lemma CellContentNormalized(cell: Option<string>)
    ensures var r := CellContent(cell);
      && |r| > 0
      && '\n' !in r && '\r' !in r
      && SpacesCollapsed(r)
      && !IsTrimmable(r[0]) && !IsTrimmable(r[|r| - 1])
  {
    if cell.Some? && |Trim(cell.value)| > 0 {
      TrimEnds(cell.value);
      RewrittenText(Trim(cell.value));
    }
  }

  /** The rewriting of a trimmed, non-empty text. */
  lemma RewrittenText(t: string)
    requires |t| > 0 && !IsTrimmable(t[0]) && !IsTrimmable(t[|t| - 1])
    ensures var r := CollapseSpaces(ReplaceLineBreaks(t));
      && |r| > 0
      && '\n' !in r && '\r' !in r
      && SpacesCollapsed(r)
      && !IsTrimmable(r[0]) && !IsTrimmable(r[|r| - 1])
  {
    var u := ReplaceLineBreaks(t);
    ReplaceLineBreaksFirst(t);
    ReplaceLineBreaksLast(t);
    CollapseSpacesFirst(u);
    CollapseSpacesLast(u);
    CollapseSpacesCollapsed(u);
    CollapsedOneLine(CollapseSpaces(u));
  }

  /** A collapsed string holds no line feed and no carriage return: both are \s chars
      other than the plain space. */
  lemma CollapsedOneLine(r: string)
    requires SpacesCollapsed(r)
    ensures '\n' !in r && '\r' !in r
  {
    forall i | 0 <= i < |r| ensures r[i] != '\n' && r[i] != '\r' {
      if r[i] == '\n' || r[i] == '\r' {
        assert IsRegexSpace(r[i]);
      }
    }
  }

  /** A normalised cell text stays on one line. */
  lemma CellContentOneLine(cell: Option<string>)
    ensures '\n' !in CellContent(cell)
  {
    CellContentNormalized(cell);
  }

  /** processCellContent is idempotent. */
  lemma CellContentIdempotent(cell: Option<string>)
    ensures CellContent(Some(CellContent(cell))) == CellContent(cell)
  {
    var r := CellContent(cell);
    CellContentNormalized(cell);
    TrimOfTrimmed(r);
    ReplaceLineBreaksIdentity(r);
    CollapseSpacesFixpoint(r);
  }

  /** A line break inside a cell shows up as "<br>" in the cell content: cell text
      a + "\r\n" + b, with a and b free of line feeds and trimmed ends, renders as the
      collapse of a + "<br>" + b. */
  lemma CellContentLineBreak(a: string, b: string)
    requires |a| > 0 && |b| > 0 && '\n' !in a && '\n' !in b
    requires !IsTrimmable(a[0]) && !IsTrimmable(b[|b| - 1])
    ensures CellContent(Some(a + "\r\n" + b)) == CollapseSpaces(a + LineBreakToken + b)
  {
    var s := a + "\r\n" + b;
    assert s[0] == a[0] && s[|s| - 1] == b[|b| - 1];
    TrimOfTrimmed(s);
    ReplaceLineBreaksAtCrLf(a, b);
    ReplaceLineBreaksIdentity(a);
    ReplaceLineBreaksIdentity(b);
  }
}
