/**
 * The few Python string operations the modelled code relies on: `int(s)` on
 * attribute text, `str(n)` inside diagnostic messages, `s.strip()` and
 * `s.split('.')`. Integers are written as an optional sign followed by one or
 * more decimal digits; Python's extra leniency (surrounding whitespace,
 * underscores between digits) is not modelled.
 */
module Strings {
  import opened Wrappers

  predicate IsDigit(c: char) { '0' <= c <= '9' }

  predicate AllDigits(s: string) { forall i :: 0 <= i < |s| ==> IsDigit(s[i]) }

  function DigitValue(c: char): nat
    requires IsDigit(c)
  {
    (c as int - '0' as int) as nat
  }

  function DigitChar(d: nat): (c: char)
    requires d < 10
    ensures IsDigit(c) && DigitValue(c) == d
  {
    ('0' as int + d) as char
  }

  /** The value of a non-empty run of decimal digits, most significant first. */
  function DigitsValue(s: string): nat
    requires |s| > 0 && AllDigits(s)
    decreases |s|
  {
    if |s| == 1 then DigitValue(s[0])
    else DigitsValue(s[..|s| - 1]) * 10 + DigitValue(s[|s| - 1])
  }

  /** `str(n)` for a natural number: no leading zeros. */
  function ShowNat(n: nat): (s: string)
    ensures |s| > 0 && AllDigits(s)
    ensures (|s| > 1 ==> s[0] != '0')
    decreases n
  {
    if n < 10 then [DigitChar(n)] else ShowNat(n / 10) + [DigitChar(n % 10)]
  }

  /** `str(n)` for any integer. */
  function ShowInt(n: int): string
  {
    if n < 0 then "-" + ShowNat(-n) else ShowNat(n)
  }

  /** `str(x)` for an optional integer: Python prints `None` for the absent value. */
  function ShowOptInt(o: Option<int>): string
  {
    match o
    case None => "None"
    case Some(n) => ShowInt(n)
  }

  /** `int(s)`: an optional `+` or `-` followed by at least one decimal digit. */
  function ParseInt(s: string): (r: Option<int>)
    ensures r.Some? <==> (|s| > 0 && AllDigits(s)) || (|s| > 1 && s[0] in "+-" && AllDigits(s[1..]))
  {
    if |s| > 0 && AllDigits(s) then Some(DigitsValue(s))
    else if |s| > 1 && s[0] == '-' && AllDigits(s[1..]) then Some(0 - DigitsValue(s[1..]))
    else if |s| > 1 && s[0] == '+' && AllDigits(s[1..]) then Some(DigitsValue(s[1..]))
    else None
  }

  lemma {:induction false} DigitsOfShowNat(n: nat)
    ensures DigitsValue(ShowNat(n)) == n
    decreases n
  {
    if n >= 10 {
      var s := ShowNat(n);
      assert s[..|s| - 1] == ShowNat(n / 10);
      DigitsOfShowNat(n / 10);
    }
  }

  /** Reading back what `str` wrote gives the same integer. */
  lemma ParseShowInt(n: int)
    ensures ParseInt(ShowInt(n)) == Some(n)
  {
    if n < 0 {
      ParseShowNegative(n);
    } else {
      DigitsOfShowNat(n);
    }
  }

  /** A negative number reads back through its minus sign. */
  lemma ParseShowNegative(n: int)
    requires n < 0
    ensures ParseInt(ShowInt(n)) == Some(n)
  {
    var d := ShowNat(-n);
    var s := ['-'] + d;
    assert s == ShowInt(n);
    assert s[1..] == d;
    ParseMinus(s);
    DigitsOfShowNat(-n);
  }

  /** A minus sign followed by digits reads as the negated digits. */
  lemma ParseMinus(s: string)
    requires |s| > 1 && s[0] == '-' && AllDigits(s[1..])
    ensures ParseInt(s) == Some(0 - DigitsValue(s[1..]))
  {
    assert !IsDigit(s[0]);
  }

  /**
   * The characters `str.strip()` removes, which are those `str.isspace()`
   * accepts: U+0009 to U+000D, U+001C to U+0020, U+0085, U+00A0, U+1680,
   * U+2000 to U+200A, U+2028, U+2029, U+202F, U+205F and U+3000.
   */
  predicate IsSpace(c: char)
  {
    InRanges(c, SpaceRanges)
  }

  const SpaceRanges: seq<(char, char)> := [
    ('\U{9}', '\U{D}'), ('\U{1C}', ' '), ('\U{85}', '\U{85}'), ('\U{A0}', '\U{A0}'),
    ('\U{1680}', '\U{1680}'), ('\U{2000}', '\U{200A}'), ('\U{2028}', '\U{2029}'),
    ('\U{202F}', '\U{202F}'), ('\U{205F}', '\U{205F}'), ('\U{3000}', '\U{3000}')]

  /** Whether `c` lies in one of the inclusive ranges. */
  predicate InRanges(c: char, ranges: seq<(char, char)>)
  {
    |ranges| > 0 && (ranges[0].0 <= c <= ranges[0].1 || InRanges(c, ranges[1..]))
  }

  function StripLeft(s: string): (r: string)
    ensures |r| <= |s| && r == s[|s| - |r|..]
    ensures r == [] || !IsSpace(r[0])
  {
    if |s| > 0 && IsSpace(s[0]) then StripLeft(s[1..]) else s
  }

  function StripRight(s: string): (r: string)
    ensures |r| <= |s| && r == s[..|r|]
    ensures r == [] || !IsSpace(r[|r| - 1])
  {
    if |s| > 0 && IsSpace(s[|s| - 1]) then StripRight(s[..|s| - 1]) else s
  }

  /** `s.strip()`: drop leading and trailing whitespace. */
  function Strip(s: string): (r: string)
  {
    StripRight(StripLeft(s))
  }

  /**
   * The stripped text is the contiguous piece `s[i..j]` of the input with no
   * whitespace at either end, and only whitespace was dropped around it.
   */
  lemma StripIsTrimmedInfix(s: string)
    ensures var i := |s| - |StripLeft(s)|; var j := i + |Strip(s)|;
      && j <= |s| && Strip(s) == s[i..j]
      && (forall k :: 0 <= k < i ==> IsSpace(s[k]))
      && (forall k :: j <= k < |s| ==> IsSpace(s[k]))
  {
    StripIsInfix(s);
    StripLeftDropsSpace(s);
    StripTrailingSpace(s, StripLeft(s), |s| - |StripLeft(s)|);
  }

  lemma StripIsInfix(s: string)
    ensures var i := |s| - |StripLeft(s)|;
      && i + |Strip(s)| <= |s| && Strip(s) == s[i..i + |Strip(s)|]
  {
    var l := StripLeft(s);
    var i := |s| - |l|;
    var r := StripRight(l);
    assert l == s[i..] && r == l[..|r|];
  }

  /** What `StripRight` drops from the left-stripped text is whitespace of the input too. */
  lemma StripTrailingSpace(s: string, l: string, i: nat)
    requires i <= |s| && l == s[i..]
    ensures forall k :: i + |StripRight(l)| <= k < |s| ==> IsSpace(s[k])
  {
    StripRightDropsSpace(l);
    forall k | i + |StripRight(l)| <= k < |s|
      ensures IsSpace(s[k])
    {
      assert s[k] == l[k - i];
    }
  }

  /** The stripped text neither starts nor ends with whitespace. */
  lemma StripEnds(s: string)
    ensures Strip(s) == [] || (!IsSpace(Strip(s)[0]) && !IsSpace(Strip(s)[|Strip(s)| - 1]))
  {
    var l := StripLeft(s);
    var r := StripRight(l);
    if r != [] {
      assert r[0] == l[0];
    }
  }

  lemma {:induction false} StripLeftDropsSpace(s: string)
    ensures forall k :: 0 <= k < |s| - |StripLeft(s)| ==> IsSpace(s[k])
  {
    if |s| > 0 && IsSpace(s[0]) {
      StripLeftDropsSpace(s[1..]);
    }
  }

  lemma {:induction false} StripRightDropsSpace(s: string)
    ensures forall k :: |StripRight(s)| <= k < |s| ==> IsSpace(s[k])
  {
    if |s| > 0 && IsSpace(s[|s| - 1]) {
      StripRightDropsSpace(s[..|s| - 1]);
    }
  }

  /** Text with no whitespace at either end is its own stripped form. */
  lemma StripUnchanged(s: string)
    requires s == [] || (!IsSpace(s[0]) && !IsSpace(s[|s| - 1]))
    ensures Strip(s) == s
  {
  }

  /** Stripping text that has no whitespace at its ends changes nothing. */
  lemma {:induction false} StripIdempotent(s: string)
    ensures Strip(Strip(s)) == Strip(s)
  {
    StripEnds(s);
    var t := Strip(s);
    if t != [] {
      assert StripLeft(t) == t;
      assert StripRight(t) == t;
    }
  }

  /** Number of occurrences of `c` in `s`. */
  function Count(s: string, c: char): nat
  {
    if s == [] then 0 else (if s[0] == c then 1 else 0) + Count(s[1..], c)
  }

  /** Index of the first `c` in `s`, or `|s|` when there is none. */
  function IndexOf(s: string, c: char): (i: nat)
    ensures i <= |s| && (i < |s| ==> s[i] == c)
    ensures forall k :: 0 <= k < i ==> s[k] != c
  {
    if s == [] then 0 else if s[0] == c then 0 else 1 + IndexOf(s[1..], c)
  }

  /**
   * `a, b = s.split('.')`: succeeds exactly when `s` holds one dot, and then
   * gives the text before it and the text after it.
   */
  function SplitDot(s: string): (r: Option<(string, string)>)
  {
    var i := IndexOf(s, '.');
    if Count(s, '.') != 1 || i == |s| then None else Some((s[..i], s[i + 1..]))
  }

  lemma {:induction false} CountSplit(s: string, i: nat, c: char)
    requires i <= |s|
    ensures Count(s, c) == Count(s[..i], c) + Count(s[i..], c)
  {
    if i > 0 {
      CountSplit(s[1..], i - 1, c);
      assert s[1..][..i - 1] == s[..i][1..];
      assert s[1..][i - 1..] == s[i..];
    }
  }

  lemma {:induction false} CountZero(s: string, c: char)
    ensures Count(s, c) == 0 <==> forall k :: 0 <= k < |s| ==> s[k] != c
  {
    if s != [] {
      CountZero(s[1..], c);
      assert forall k :: 1 <= k < |s| ==> s[k] == s[1..][k - 1];
    }
  }

  /** `split('.')` and joining with `.` are inverse: neither half holds a dot. */
  lemma SplitDotJoin(s: string)
    ensures SplitDot(s).Some? <==> Count(s, '.') == 1
    ensures SplitDot(s).Some? ==>
      var (a, b) := SplitDot(s).value;
      a + "." + b == s && Count(a, '.') == 0 && Count(b, '.') == 0
  {
    var i := IndexOf(s, '.');
    if Count(s, '.') == 1 {
      CountZero(s[..i], '.');
      CountSplit(s, i, '.');
      var t := s[i + 1..];
      assert s[i..] == [s[i]] + t;
      assert Count(s[i..], '.') == 1 + Count(t, '.');
      assert s[..i] + "." + t == s;
    }
  }

  /** A dotted pair joined by `.` splits back into the same pair. */
  lemma JoinSplitDot(a: string, b: string)
    requires Count(a, '.') == 0 && Count(b, '.') == 0
    ensures SplitDot(a + "." + b) == Some((a, b))
  {
    var s := a + "." + b;
    CountSplit(s, |a|, '.');
    assert s[..|a|] == a;
    assert s[|a|..] == [s[|a|]] + b;
    assert s[|a| + 1..] == b;
    assert Count(s[|a|..], '.') == 1 + Count(b, '.');
    CountZero(a, '.');
    assert IndexOf(s, '.') == |a|;
  }
}
