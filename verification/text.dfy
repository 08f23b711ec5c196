/** Character classes and string helpers shared by the other modules.
    Strings are `seq<char>`. The input file is decoded as Latin-1, so every
    character of a cell lies in U+0000..U+00FF; the classes below are exactly
    what Python's `\d` and `str.isspace()` accept inside that range. */
module Text {

  /** Python's `\d` restricted to Latin-1: only the ASCII digits are in
      Unicode category Nd there. */
  predicate IsDigit(c: char) {
    '0' <= c <= '9'
  }

  /** Python's `str.isspace()` restricted to Latin-1: TAB..CR, the four
      information separators U+001C..U+001F, SPACE, NEL and NO-BREAK SPACE. */
  predicate IsSpace(c: char) {
    ('\t' <= c <= '\r') || ('\U{1C}' <= c <= '\U{1F}') || c == ' ' || c == '\U{85}' || c == '\U{A0}'
  }

  /** Length of the longest run of digits at the start of `s`. */
  function DigitRun(s: string): (n: nat)
    ensures n <= |s|
    ensures forall i :: 0 <= i < n ==> IsDigit(s[i])
    ensures n == |s| || !IsDigit(s[n])
  {
    if s != [] && IsDigit(s[0]) then 1 + DigitRun(s[1..]) else 0
  }

  function DigitValue(c: char): int
    requires IsDigit(c)
  {
    c as int - '0' as int
  }

  function DigitChar(n: int): (c: char)
    requires 0 <= n <= 9
    ensures IsDigit(c) && DigitValue(c) == n
  {
    (n + '0' as int) as char
  }

  predicate AllDigits(s: string) {
    forall i :: 0 <= i < |s| ==> IsDigit(s[i])
  }

  lemma {:induction false} DigitRunOver(digits: string, rest: string)
    requires AllDigits(digits)
    requires rest == [] || !IsDigit(rest[0])
    ensures DigitRun(digits + rest) == |digits|
  {
    if digits != [] {
      assert (digits + rest)[1..] == digits[1..] + rest;
      DigitRunOver(digits[1..], rest);
    }
  }

  /** Position of the first `c` in `s`, or `|s|` when there is none. */
  function Find(s: string, c: char): (k: nat)
    ensures k <= |s|
    ensures c !in s[..k]
    ensures k < |s| ==> s[k] == c
  {
    if s == [] then 0
    else if s[0] == c then 0
    else
      assert s[..1 + Find(s[1..], c)] == [s[0]] + s[1..][..Find(s[1..], c)];
      1 + Find(s[1..], c)
  }

  /** `p` is a prefix of `s`. */
  predicate IsPrefix(p: string, s: string) {
    |p| <= |s| && s[..|p|] == p
  }

  /** Python's `needle in s` for strings. */
  predicate Contains(s: string, needle: string) {
    exists i :: 0 <= i <= |s| - |needle| && IsPrefix(needle, s[i..])
  }

  /** A string containing a non-empty needle contains the needle's first character. */
  lemma ContainsFirstChar(s: string, needle: string)
    requires |needle| > 0 && Contains(s, needle)
    ensures needle[0] in s
  {
    var i :| 0 <= i <= |s| - |needle| && IsPrefix(needle, s[i..]);
    assert s[i] == needle[0];
  }

  /** The characters of `s` that satisfy `keep`, in order. */
  function Filter(s: string, keep: char -> bool): (r: string)
    ensures |r| <= |s|
  {
    if s == [] then [] else (if keep(s[0]) then [s[0]] else []) + Filter(s[1..], keep)
  }

  lemma {:induction false} FilterConcat(a: string, b: string, keep: char -> bool)
    ensures Filter(a + b, keep) == Filter(a, keep) + Filter(b, keep)
  {
    if a == [] {
      assert a + b == b;
    } else {
      var head := if keep(a[0]) then [a[0]] else [];
      assert (a + b)[0] == a[0];
      assert (a + b)[1..] == a[1..] + b;
      FilterConcat(a[1..], b, keep);
      calc {
        Filter(a + b, keep);
      ==
        head + Filter(a[1..] + b, keep);
      ==
        head + (Filter(a[1..], keep) + Filter(b, keep));
      ==
        (head + Filter(a[1..], keep)) + Filter(b, keep);
      }
    }
  }

  /** A string none of whose characters is kept filters to nothing. */
  lemma {:induction false} FilterNone(s: string, keep: char -> bool)
    requires forall i :: 0 <= i < |s| ==> !keep(s[i])
    ensures Filter(s, keep) == []
  {
    if s != [] {
      FilterNone(s[1..], keep);
    }
  }

  /** A string all of whose characters are kept filters to itself. */
  lemma {:induction false} FilterAll(s: string, keep: char -> bool)
    requires forall i :: 0 <= i < |s| ==> keep(s[i])
    ensures Filter(s, keep) == s
  {
    if s != [] {
      FilterAll(s[1..], keep);
      assert s == [s[0]] + s[1..];
    }
  }

  /** Python's `s.replace(a, b)` for one-character `a` and `b`: every `a`
      becomes `b`, every other character is left alone. */
  function ReplaceChar(s: string, a: char, b: char): (r: string)
    ensures |r| == |s|
    ensures forall i :: 0 <= i < |s| && s[i] != a ==> r[i] == s[i]
    ensures forall i :: 0 <= i < |s| && s[i] == a ==> r[i] == b
  {
    if s == [] then [] else [if s[0] == a then b else s[0]] + ReplaceChar(s[1..], a, b)
  }

  /** Python's `s.replace(c, '')`: every occurrence of `c` removed. */
  function DeleteChar(s: string, c: char): (r: string)
    ensures c !in r
    ensures |r| <= |s|
  {
    if s == [] then [] else (if s[0] == c then [] else [s[0]]) + DeleteChar(s[1..], c)
  }

  lemma {:induction false} DeleteCharConcat(a: string, b: string, c: char)
    ensures DeleteChar(a + b, c) == DeleteChar(a, c) + DeleteChar(b, c)
  {
    if a == [] {
      assert a + b == b;
    } else {
      var t := a[1..];
      assert (a + b)[0] == a[0];
      assert (a + b)[1..] == t + b;
      DeleteCharConcat(t, b, c);
      var head := if a[0] == c then [] else [a[0]];
      assert DeleteChar(a + b, c) == head + DeleteChar(t + b, c);
      assert DeleteChar(a, c) == head + DeleteChar(t, c);
    }
  }

  /** Number of leading characters of `s` in the class `space`. */
  function LeadingSpace(s: string, space: char -> bool): (n: nat)
    ensures n <= |s|
    ensures forall i :: 0 <= i < n ==> space(s[i])
    ensures n == |s| || !space(s[n])
  {
    if s != [] && space(s[0]) then 1 + LeadingSpace(s[1..], space) else 0
  }

  /** Number of trailing characters of `s` in the class `space`. */
  function TrailingSpace(s: string, space: char -> bool): (n: nat)
    ensures n <= |s|
    ensures forall i :: |s| - n <= i < |s| ==> space(s[i])
    ensures n == |s| || !space(s[|s| - n - 1])
  {
    if s != [] && space(s[|s| - 1]) then 1 + TrailingSpace(s[..|s| - 1], space) else 0
  }

  /** Everything before `a` and everything from `b` on is in the class `space`. */
  predicate CutAt(s: string, space: char -> bool, a: int, b: int) {
    0 <= a <= b <= |s| && (forall i :: 0 <= i < a ==> space(s[i])) && (forall i :: b <= i < |s| ==> space(s[i]))
  }

  /** `s` with every leading and trailing character of the class `space` cut
      off: the slice between a run of such characters at the front and one at
      the back, which is empty when all of `s` is in the class. */
  function Trim(s: string, space: char -> bool): (r: string)
    ensures exists a, b :: CutAt(s, space, a, b) && r == s[a..b]
    ensures r == [] <==> forall i :: 0 <= i < |s| ==> space(s[i])
    ensures r != [] ==> !space(r[0]) && !space(r[|r| - 1])
  {
    var a := LeadingSpace(s, space);
    if a == |s| then
      assert s[|s|..|s|] == [];
      []
    else
      var b := |s| - TrailingSpace(s, space);
      assert !space(s[a]);
      assert s[a..b][0] == s[a] && s[a..b][b - a - 1] == s[b - 1];
      s[a..b]
  }

  /** A string with no character of the class at either end is its own trim. */
  lemma TrimNoEdge(s: string, space: char -> bool)
    requires s != [] && !space(s[0]) && !space(s[|s| - 1])
    ensures Trim(s, space) == s
  {
    assert LeadingSpace(s, space) == 0;
    assert TrailingSpace(s, space) == 0;
  }

  /** Python's `s.strip()`: the slice of `s` left when the whitespace at both
      ends is cut off. It is empty exactly when `s` is all whitespace; it
      keeps every other character, interior whitespace included. */
  function Strip(s: string): (r: string)
    ensures exists a, b :: CutAt(s, IsSpace, a, b) && r == s[a..b]
    ensures r == [] <==> forall i :: 0 <= i < |s| ==> IsSpace(s[i])
    ensures r != [] ==> !IsSpace(r[0]) && !IsSpace(r[|r| - 1])
    ensures Filter(r, NotSpace) == Filter(s, NotSpace)
  {
    TrimKeepsNonSpace(s);
    Trim(s, IsSpace)
  }

  /** Trimming whitespace keeps every non-whitespace character. */
  lemma TrimKeepsNonSpace(s: string)
    ensures Filter(Trim(s, IsSpace), NotSpace) == Filter(s, NotSpace)
  {
    var r := Trim(s, IsSpace);
    var a, b :| CutAt(s, IsSpace, a, b) && r == s[a..b];
    StripFilter(s, a, b);
  }

  /** Cutting whitespace off both ends keeps every non-whitespace character. */
  lemma StripFilter(s: string, a: nat, b: nat)
    requires a <= b <= |s|
    requires forall i :: 0 <= i < a ==> IsSpace(s[i])
    requires forall i :: b <= i < |s| ==> IsSpace(s[i])
    ensures Filter(s[a..b], NotSpace) == Filter(s, NotSpace)
  {
    DropKept(s[..b], a);
    assert s[..b][a..] == s[a..b];
    DropKeptSuffix(s, b);
  }

  /** Dropping a prefix of unkept characters does not change the filter. */
  lemma DropKept(s: string, a: nat)
    requires a <= |s|
    requires forall i :: 0 <= i < a ==> IsSpace(s[i])
    ensures Filter(s[a..], NotSpace) == Filter(s, NotSpace)
  {
    var pre := s[..a];
    assert s == pre + s[a..];
    FilterNone(pre, NotSpace);
    FilterConcat(pre, s[a..], NotSpace);
  }

  /** Dropping a suffix of unkept characters does not change the filter. */
  lemma DropKeptSuffix(s: string, b: nat)
    requires b <= |s|
    requires forall i :: b <= i < |s| ==> IsSpace(s[i])
    ensures Filter(s[..b], NotSpace) == Filter(s, NotSpace)
  {
    var post := s[b..];
    assert s == s[..b] + post;
    assert forall i :: 0 <= i < |post| ==> post[i] == s[b + i];
    FilterNone(post, NotSpace);
    FilterConcat(s[..b], post, NotSpace);
  }

  predicate NotSpace(c: char) {
    !IsSpace(c)
  }

  /** A string with no whitespace at either end is its own strip. */
  lemma StripNoEdgeSpace(s: string)
    requires s != [] && !IsSpace(s[0]) && !IsSpace(s[|s| - 1])
    ensures Strip(s) == s
  {
    TrimNoEdge(s, IsSpace);
  }

  /** Whitespace inside a stripped text stays: "a b" strips to itself. */
  lemma StripKeepsInnerSpace(s: string)
    requires s == "a b"
    ensures Strip(s) == s
  {
    StripNoEdgeSpace(s);
  }

  /** Python's `s.replace(a, b)` for one character commutes with concatenation. */
  lemma {:induction false} ReplaceCharConcat(x: string, y: string, a: char, b: char)
    ensures ReplaceChar(x + y, a, b) == ReplaceChar(x, a, b) + ReplaceChar(y, a, b)
  {
    if x == [] {
      assert x + y == y;
    } else {
      assert (x + y)[1..] == x[1..] + y;
      ReplaceCharConcat(x[1..], y, a, b);
    }
  }
}
