/** The parts of java.lang.String, java.lang.Integer and java.util.regex that the
    extractor relies on, stated over Dafny strings (sequences of char). */
module JavaString {

  /** String.trim() removes every leading and trailing char whose code is at most U+0020. */
  predicate IsTrimmable(c: char) { c <= ' ' }

  /** The regex class \s without UNICODE_CHARACTER_CLASS: [ \t\n\x0B\f\r]. */
  predicate IsRegexSpace(c: char) {
    c == ' ' || c == '\t' || c == '\n' || c == '\U{000B}' || c == '\U{000C}' || c == '\r'
  }

  /** The line terminators that the regex `.` does not match (no DOTALL, no UNIX_LINES). */
  predicate IsLineTerminator(c: char) {
    c == '\n' || c == '\r' || c == '\U{0085}' || c == '\U{2028}' || c == '\U{2029}'
  }

  /** The leading part of String.trim(). */
  function TrimStart(s: string): string {
    if |s| > 0 && IsTrimmable(s[0]) then TrimStart(s[1..]) else s
  }

  /** The trailing part of String.trim(). */
  function TrimEnd(s: string): string {
    if |s| > 0 && IsTrimmable(s[|s| - 1]) then TrimEnd(s[..|s| - 1]) else s
  }

  /** TrimStart removes the longest prefix of chars at most U+0020. */
  lemma {:induction false} TrimStartSpec(s: string)
    ensures var r := TrimStart(s);
      && |r| <= |s| && r == s[|s| - |r|..]
      && (forall i :: 0 <= i < |s| - |r| ==> IsTrimmable(s[i]))
      && (|r| == 0 || !IsTrimmable(r[0]))
  {
    if |s| > 0 && IsTrimmable(s[0]) {
      TrimStartSpec(s[1..]);
      var r := TrimStart(s);
      assert s[1..][|s| - 1 - |r|..] == s[|s| - |r|..];
      forall i | 1 <= i < |s| - |r| ensures IsTrimmable(s[i]) {
        assert s[i] == s[1..][i - 1];
      }
    }
  }

  /** TrimEnd removes the longest suffix of chars at most U+0020. */
  lemma {:induction false} TrimEndSpec(s: string)
    ensures var r := TrimEnd(s);
      && |r| <= |s| && r == s[..|r|]
      && (forall i :: |r| <= i < |s| ==> IsTrimmable(s[i]))
      && (|r| == 0 || !IsTrimmable(r[|r| - 1]))
  {
    if |s| > 0 && IsTrimmable(s[|s| - 1]) {
      TrimEndSpec(s[..|s| - 1]);
      var r := TrimEnd(s);
      assert s[..|s| - 1][..|r|] == s[..|r|];
      forall i | |r| <= i < |s| - 1 ensures IsTrimmable(s[i]) {
        assert s[i] == s[..|s| - 1][i];
      }
    }
  }

  /** String.trim(). */
  function Trim(s: string): string {
    TrimEnd(TrimStart(s))
  }

  /** The trim starts and ends with a char above U+0020. */
  lemma TrimEnds(s: string)
    ensures var r := Trim(s); |r| == 0 || (!IsTrimmable(r[0]) && !IsTrimmable(r[|r| - 1]))
  {
    TrimStartSpec(s);
    TrimEndSpec(TrimStart(s));
  }

  /** The trim is empty exactly when every char of the input is at most U+0020. */
  lemma TrimEmptyIff(s: string)
    ensures |Trim(s)| == 0 <==> forall i :: 0 <= i < |s| ==> IsTrimmable(s[i])
  {
    var t := TrimStart(s);
    TrimStartSpec(s);
    TrimEndSpec(t);
    var r := TrimEnd(t);
    if |r| > 0 {
      assert r[0] == s[|s| - |t|];
    }
  }

  /** A string that already starts and ends above U+0020 is its own trim. */
  lemma TrimOfTrimmed(s: string)
    requires |s| == 0 || (!IsTrimmable(s[0]) && !IsTrimmable(s[|s| - 1]))
    ensures Trim(s) == s
  {
  }

  /** Trim is idempotent. */
  lemma TrimIdempotent(s: string)
    ensures Trim(Trim(s)) == Trim(s)
  {
    TrimEnds(s);
    TrimOfTrimmed(Trim(s));
  }

  /** The longest suffix of s that does not start with a \s char. */
  function DropSpaces(s: string): (r: string)
    ensures |r| <= |s| && r == s[|s| - |r|..]
    ensures forall i :: 0 <= i < |s| - |r| ==> IsRegexSpace(s[i])
    ensures |r| == 0 || !IsRegexSpace(r[0])
  {
    if |s| > 0 && IsRegexSpace(s[0]) then DropSpaces(s[1..]) else s
  }

  /** The \s run of a string ends where its first other char stands. */
  lemma {:induction false} DropSpacesAt(s: string, i: nat)
    requires i < |s| && !IsRegexSpace(s[i])
    requires forall j :: 0 <= j < i ==> IsRegexSpace(s[j])
    ensures DropSpaces(s) == s[i..]
  {
    if i > 0 {
      DropSpacesAt(s[1..], i - 1);
      assert s[1..][i - 1..] == s[i..];
    }
  }

  /** A run of \s chars: what the regex \s+ matches when s is not empty. */
  predicate AllRegexSpace(s: string) {
    forall i :: 0 <= i < |s| ==> IsRegexSpace(s[i])
  }

  /** Text appended after a non-space char does not change where the \s run ends. */
  lemma {:induction false} DropSpacesAppend(a: string, b: string)
    requires |DropSpaces(a)| > 0
    ensures DropSpaces(a + b) == DropSpaces(a) + b
    decreases |a|
  {
    assert (a + b)[0] == a[0];
    if IsRegexSpace(a[0]) {
      assert (a + b)[1..] == a[1..] + b;
      DropSpacesAppend(a[1..], b);
    }
  }

  /** Dropping a run of \s chars in front of text that does not start with one leaves
      that text. */
  lemma {:induction false} DropSpacesOfRun(w: string, y: string)
    requires AllRegexSpace(w)
    requires |y| == 0 || !IsRegexSpace(y[0])
    ensures DropSpaces(w + y) == y
    decreases |w|
  {
    if |w| == 0 {
      assert w + y == y;
    } else {
      assert (w + y)[0] == w[0];
      assert (w + y)[1..] == w[1..] + y;
      assert AllRegexSpace(w[1..]) by {
        forall i | 0 <= i < |w| - 1 ensures IsRegexSpace(w[1..][i]) {
          assert w[1..][i] == w[i + 1];
        }
      }
      DropSpacesOfRun(w[1..], y);
    }
  }

  /** String.lastIndexOf(char): -1 when absent, otherwise the last position holding c. */
  function LastIndexOf(s: string, c: char): (r: int)
    ensures -1 <= r < |s|
  {
    if |s| == 0 then -1
    else if s[|s| - 1] == c then |s| - 1
    else LastIndexOf(s[..|s| - 1], c)
  }

  /** The position found holds c, and no later position does. */
  lemma {:induction false} LastIndexOfSpec(s: string, c: char)
    ensures var r := LastIndexOf(s, c);
      && (r >= 0 ==> s[r] == c)
      && (forall i :: r < i < |s| ==> s[i] != c)
  {
    if |s| > 0 && s[|s| - 1] != c {
      var init := s[..|s| - 1];
      LastIndexOfSpec(init, c);
      var r := LastIndexOf(s, c);
      assert r >= 0 ==> s[r] == init[r];
      forall i | r < i < |s| - 1 ensures s[i] != c {
        assert s[i] == init[i];
      }
    }
  }

  /** A char that does not occur is not found. */
  lemma LastIndexOfAbsent(s: string, c: char)
    requires c !in s
    ensures LastIndexOf(s, c) == -1
  {
    LastIndexOfSpec(s, c);
  }

  /** The last occurrence of c is found after a prefix when the rest holds no c. */
  lemma LastIndexOfSplit(a: string, c: char, b: string)
    requires c !in b
    ensures LastIndexOf(a + [c] + b, c) == |a|
  {
    LastIndexOfAppendAbsent(a + [c], b, c);
  }

  /** Appending text without c leaves the last occurrence of c where it was. */
  lemma {:induction false} LastIndexOfAppendAbsent(a: string, b: string, c: char)
    requires c !in b
    ensures LastIndexOf(a + b, c) == LastIndexOf(a, c)
  {
    if |b| == 0 {
      assert a + b == a;
    } else {
      var s := a + b;
      assert s[|s| - 1] == b[|b| - 1];
      assert s[..|s| - 1] == a + b[..|b| - 1];
      LastIndexOfAppendAbsent(a, b[..|b| - 1], c);
    }
  }

  /** Appending text holding c moves the last occurrence of c into it. */
  lemma {:induction false} LastIndexOfAppendPresent(a: string, b: string, c: char)
    requires c in b
    ensures LastIndexOf(a + b, c) == |a| + LastIndexOf(b, c)
  {
    var s := a + b;
    assert s[|s| - 1] == b[|b| - 1];
    if b[|b| - 1] != c {
      var init := b[..|b| - 1];
      assert c in init by {
        var i :| 0 <= i < |b| && b[i] == c;
        assert init[i] == c;
      }
      assert s[..|s| - 1] == a + init;
      LastIndexOfAppendPresent(a, init, c);
    }
  }

  /** The number of chars equal to c (the stream filter-count idiom). */
  function Count(s: string, c: char): (n: nat)
    ensures n <= |s|
  {
    if |s| == 0 then 0 else (if s[0] == c then 1 else 0) + Count(s[1..], c)
  }

  lemma {:induction false} CountAppend(a: string, b: string, c: char)
    ensures Count(a + b, c) == Count(a, c) + Count(b, c)
  {
    if |a| > 0 {
      assert (a + b)[1..] == a[1..] + b;
      CountAppend(a[1..], b, c);
    } else {
      assert a + b == b;
    }
  }

  lemma {:induction false} CountAbsent(s: string, c: char)
    requires c !in s
    ensures Count(s, c) == 0
  {
    if |s| > 0 {
      CountAbsent(s[1..], c);
    }
  }

  /** n copies of s, as a loop of appends builds them. */
  function Repeat(s: string, n: nat): string {
    if n == 0 then [] else Repeat(s, n - 1) + s
  }

  predicate StartsWith(s: string, prefix: string) {
    |prefix| <= |s| && s[..|prefix|] == prefix
  }

  predicate EndsWith(s: string, suffix: string) {
    |suffix| <= |s| && s[|s| - |suffix|..] == suffix
  }

  lemma AppendAssoc(a: string, b: string, c: string)
    ensures a + (b + c) == a + b + c
  {
  }

  lemma AppendAssoc4(a: string, b: string, c: string, d: string)
    ensures a + (b + c + d) == a + b + c + d
  {
  }

  lemma PrefixOfAppend(a: string, b: string)
    ensures StartsWith(a + b, a)
  {
    assert (a + b)[..|a|] == a;
  }

  lemma StartsWithTrans(a: string, b: string, c: string)
    requires StartsWith(c, b) && StartsWith(b, a)
    ensures StartsWith(c, a)
  {
    assert c[..|a|] == b[..|a|];
  }

  /** Ending with a one-char string is a test of the last char. */
  lemma EndsWithChar(s: string, c: char)
    ensures EndsWith(s, [c]) <==> |s| > 0 && s[|s| - 1] == c
  {
    if |s| > 0 { assert s[|s| - 1..] == [s[|s| - 1]]; }
  }

  predicate IsAsciiDigit(c: char) { '0' <= c <= '9' }

  function DigitChar(d: nat): (c: char)
    requires d < 10
    ensures IsAsciiDigit(c) && c as int - '0' as int == d
  {
    ('0' as int + d) as char
  }

  /** Decimal digits of a natural number, most significant first, no leading zeros. */
  function NatToString(n: nat): (r: string)
    ensures |r| > 0 && forall i :: 0 <= i < |r| ==> IsAsciiDigit(r[i])
  {
    if n < 10 then [DigitChar(n)] else NatToString(n / 10) + [DigitChar(n % 10)]
  }

  /** Integer.toString(int), which StringBuilder.append(int) uses. */
  function IntToString(n: int): (r: string)
    ensures |r| > 0 && '.' !in r
  {
    if n < 0 then "-" + NatToString(-n) else NatToString(n)
  }

  predicate AllDigits(s: string) {
    forall i :: 0 <= i < |s| ==> IsAsciiDigit(s[i])
  }

  /** Integer.parseInt restricted to what IntToString produces. */
  function ParseNat(s: string): nat
    requires AllDigits(s)
  {
    if |s| == 0 then 0 else ParseNat(s[..|s| - 1]) * 10 + (s[|s| - 1] as int - '0' as int)
  }

  function ParseInt(s: string): int {
    if |s| > 0 && s[0] == '-' && AllDigits(s[1..]) then -(ParseNat(s[1..]) as int)
    else if AllDigits(s) then ParseNat(s)
    else 0
  }

  lemma {:induction false} ParseNatToString(n: nat)
    ensures ParseNat(NatToString(n)) == n
  {
    if n >= 10 {
      var s := NatToString(n / 10) + [DigitChar(n % 10)];
      assert s[..|s| - 1] == NatToString(n / 10);
      ParseNatToString(n / 10);
    }
  }

  /** Parsing the rendering of an int gives the int back. */
  lemma ParseIntToString(n: int)
    ensures ParseInt(IntToString(n)) == n
  {
    if n < 0 {
      var s := "-" + NatToString(-n);
      assert s[1..] == NatToString(-n);
      ParseNatToString(-n);
    } else {
      ParseNatToString(n);
    }
  }
}
