/** Supplier-name redaction (`limpar_nome_fornecedor`): taxpayer numbers are
    cut out of the supplier's name by three regular-expression substitutions
    and one literal replacement, each a single left-to-right pass that deletes
    non-overlapping matches, followed by `strip()` and a fallback to "N/A". */
module Redaction {
  import opened Wrappers
  import opened Text

  /** One position of a fixed-shape pattern: `\d` or a literal character. */
  datatype Glyph = AnyDigit | Lit(c: char)

  predicate Fits(g: Glyph, c: char) {
    match g
    case AnyDigit => IsDigit(c)
    case Lit(x) => c == x
  }

  /** A pattern is either a fixed sequence of glyphs, or the masked-number
      pattern `\*\*\*\*\d+\*\*\*\*`. */
  datatype Pattern = Shape(glyphs: seq<Glyph>) | MaskedDigits

  /** CNPJ shape `DD.DDD.DDD/DDDD-DD`. */
  const Cnpj: Pattern := Shape([
    AnyDigit, AnyDigit, Lit('.'), AnyDigit, AnyDigit, AnyDigit, Lit('.'), AnyDigit, AnyDigit, AnyDigit,
    Lit('/'), AnyDigit, AnyDigit, AnyDigit, AnyDigit, Lit('-'), AnyDigit, AnyDigit])
  /** CPF shape `DDD.DDD.DDD-DD`. */
  const Cpf: Pattern := Shape([
    AnyDigit, AnyDigit, AnyDigit, Lit('.'), AnyDigit, AnyDigit, AnyDigit, Lit('.'), AnyDigit, AnyDigit,
    AnyDigit, Lit('-'), AnyDigit, AnyDigit])
  /** The literal " - " removed by `str.replace`. */
  const Separator: Pattern := Shape([Lit(' '), Lit('-'), Lit(' ')])
  const Mask := "****"
  const Sentinel := "N/A"

  /** Characters some redaction step may delete: digits, the punctuation of
      the patterns, and whitespace (the separator's spaces and `strip()`). */
  predicate Redactable(c: char) {
    IsDigit(c) || IsSpace(c) || c == '.' || c == '/' || c == '-' || c == '*'
  }

  /** Characters of the supplier's actual name: no step can delete them. */
  predicate NameChar(c: char) {
    !Redactable(c)
  }

  /** Every literal of the pattern is redactable. */
  predicate WellFormed(p: Pattern) {
    p.Shape? ==> forall i :: 0 <= i < |p.glyphs| ==> (p.glyphs[i].Lit? ==> Redactable(p.glyphs[i].c))
  }

  /** `c` can be the first character of a match of `p`. */
  predicate CanStart(p: Pattern, c: char) {
    match p
    case Shape(g) => |g| > 0 && Fits(g[0], c)
    case MaskedDigits => c == '*'
  }

  /** Length of the match of `p` anchored at the start of `s`, or 0 when the
      pattern does not match there. For the masked pattern the greedy `\d+`
      takes the whole digit run: backtracking to a shorter run would leave a
      digit where the closing `*` is needed, so it never helps. */
  function MatchLength(p: Pattern, s: string): (n: nat)
    ensures n <= |s|
    ensures WellFormed(p) ==> forall i :: 0 <= i < n ==> Redactable(s[i])
    ensures n > 0 ==> CanStart(p, s[0])
    ensures p.Shape? ==> (n > 0 <==> 0 < |p.glyphs| <= |s| && forall i :: 0 <= i < |p.glyphs| ==> Fits(p.glyphs[i], s[i]))
    ensures p.Shape? && n > 0 ==> n == |p.glyphs|
    ensures p.MaskedDigits? && n > 0 ==> n >= 9 && s[..4] == Mask && s[n - 4..n] == Mask
    ensures p.MaskedDigits? && n > 0 ==> AllDigits(s[4..n - 4])
  {
    match p
    case Shape(g) =>
      if |g| <= |s| && forall i :: 0 <= i < |g| ==> Fits(g[i], s[i]) then
        assert forall i :: 0 <= i < |g| ==> (g[i].Lit? ==> s[i] == g[i].c);
        |g|
      else 0
    case MaskedDigits =>
      if IsPrefix(Mask, s) then
        var k := DigitRun(s[4..]);
        if k > 0 && IsPrefix(Mask, s[4 + k..]) then
          assert forall i :: 4 <= i < 4 + k ==> s[i] == s[4..][i - 4];
          assert forall i :: 4 + k <= i < 8 + k ==> s[i] == s[4 + k..][i - 4 - k];
          8 + k
        else 0
      else 0
  }

  /** `re.sub(p, '', s)`: scan left to right; where a match starts, delete it
      and resume after it; elsewhere keep the character and move on by one. */
  function Sub(p: Pattern, s: string): (r: string)
    ensures |r| <= |s|
    ensures MatchLength(p, s) > 0 ==> |r| <= |s| - MatchLength(p, s)
    ensures s != [] && MatchLength(p, s) == 0 ==> r != [] && r[0] == s[0]
    decreases |s|
  {
    if s == [] then []
    else
      var n := MatchLength(p, s);
      if n > 0 then Sub(p, s[n..]) else [s[0]] + Sub(p, s[1..])
  }

  /** No match of `p` starts anywhere in `s`. */
  predicate MatchFree(p: Pattern, s: string) {
    forall i :: 0 <= i < |s| ==> MatchLength(p, s[i..]) == 0
  }

  /** A pass copies through, unchanged, a stretch of characters none of which
      can start a match. */
  lemma {:induction false} SubPassesOver(p: Pattern, a: string, rest: string)
    requires forall i :: 0 <= i < |a| ==> !CanStart(p, a[i])
    ensures Sub(p, a + rest) == a + Sub(p, rest)
  {
    if a == [] {
      assert a + rest == rest;
    } else {
      var c, b := a[0], a[1..];
      assert a + rest == [c] + (b + rest);
      assert forall x: string :: a + x == [c] + (b + x);
      PassOneOver(p, c, b + rest);
      SubPassesOver(p, b, rest);
    }
  }

  /** A first character that cannot start a match is copied through. */
  lemma PassOneOver(p: Pattern, c: char, t: string)
    requires !CanStart(p, c)
    ensures Sub(p, [c] + t) == [c] + Sub(p, t)
  {
    var s := [c] + t;
    assert s[0] == c && s[1..] == t;
    assert MatchLength(p, s) == 0;
    SubKeep(p, s);
  }

  /** Match-freedom of a non-empty string splits into its first position and the rest. */
  lemma MatchFreeUnfold(p: Pattern, s: string)
    requires s != []
    ensures MatchFree(p, s) <==> MatchLength(p, s) == 0 && MatchFree(p, s[1..])
  {
    assert s[0..] == s;
    if MatchLength(p, s) == 0 && MatchFree(p, s[1..]) {
      forall i | 0 <= i < |s| ensures MatchLength(p, s[i..]) == 0 {
        if i > 0 { assert s[i..] == s[1..][i - 1..]; }
      }
    }
    if MatchFree(p, s) {
      forall i | 0 <= i < |s| - 1 ensures MatchLength(p, s[1..][i..]) == 0 {
        assert s[1..][i..] == s[i + 1..];
      }
    }
  }

  /** A pass deletes something exactly when the pattern matches somewhere:
      the string comes back unchanged if and only if it holds no match. */
  lemma {:induction false} SubUnchangedIffMatchFree(p: Pattern, s: string)
    ensures Sub(p, s) == s <==> MatchFree(p, s)
    decreases |s|
  {
    if s != [] {
      var n := MatchLength(p, s);
      MatchFreeUnfold(p, s);
      if n > 0 {
        SubSkip(p, s, n);
        assert |Sub(p, s[n..])| < |s|;
      } else {
        SubKeep(p, s);
        SubUnchangedIffMatchFree(p, s[1..]);
        ConsSame(s[0], Sub(p, s[1..]), s[1..]);
      }
    }
  }

  /** Texts with the same first character are equal exactly when their rests are. */
  lemma ConsSame(c: char, a: string, b: string)
    ensures [c] + a == [c] + b <==> a == b
  {
    if [c] + a == [c] + b {
      assert a == ([c] + a)[1..];
    }
  }

  /** A pass of a well-formed pattern never deletes a character of the name. */
  lemma {:induction false} SubKeepsNameChars(p: Pattern, s: string)
    requires WellFormed(p)
    ensures Filter(Sub(p, s), NameChar) == Filter(s, NameChar)
    decreases |s|
  {
    if s != [] {
      var n := MatchLength(p, s);
      if n > 0 {
        SubKeepsNameChars(p, s[n..]);
        KeepAfterMatch(p, s, n);
      } else {
        SubKeepsNameChars(p, s[1..]);
        KeepAfterCopy(p, s);
      }
    }
  }

  /** A deleted match holds no name character. */
  lemma KeepAfterMatch(p: Pattern, s: string, n: nat)
    requires WellFormed(p) && s != [] && n == MatchLength(p, s) && n > 0
    requires Filter(Sub(p, s[n..]), NameChar) == Filter(s[n..], NameChar)
    ensures Filter(Sub(p, s), NameChar) == Filter(s, NameChar)
  {
    assert Sub(p, s) == Sub(p, s[n..]);
    DropRedactable(s, n);
  }

  /** Cutting off a stretch of redactable characters keeps every name character. */
  lemma DropRedactable(s: string, n: nat)
    requires n <= |s| && forall i :: 0 <= i < n ==> Redactable(s[i])
    ensures Filter(s, NameChar) == Filter(s[n..], NameChar)
  {
    var front, back := s[..n], s[n..];
    assert forall i :: 0 <= i < |front| ==> !NameChar(front[i]);
    FilterNone(front, NameChar);
    assert s == front + back;
    FilterConcat(front, back, NameChar);
  }

  /** A character copied through keeps its place among the name characters. */
  lemma KeepAfterCopy(p: Pattern, s: string)
    requires s != [] && MatchLength(p, s) == 0
    requires Filter(Sub(p, s[1..]), NameChar) == Filter(s[1..], NameChar)
    ensures Filter(Sub(p, s), NameChar) == Filter(s, NameChar)
  {
    var c, tail := s[0], s[1..];
    assert s == [c] + tail;
    var rest := Sub(p, tail);
    assert Sub(p, s) == [c] + rest;
    FilterConcat([c], rest, NameChar);
    FilterConcat([c], tail, NameChar);
  }

  /** The text left after the four deletions, before `strip()`: never
      longer, and with every character of the name proper kept in order. */
  function Redact(s: string): (r: string)
    ensures |r| <= |s|
    ensures Filter(r, NameChar) == Filter(s, NameChar)
  {
    var a := Sub(Cnpj, s);
    var b := Sub(Cpf, a);
    var c := Sub(MaskedDigits, b);
    WellFormedPatterns();
    SubKeepsNameChars(Cnpj, s);
    SubKeepsNameChars(Cpf, a);
    SubKeepsNameChars(MaskedDigits, b);
    SubKeepsNameChars(Separator, c);
    Sub(Separator, c)
  }

  /** `limpar_nome_fornecedor`: a missing name becomes "N/A"; otherwise the
      redacted, stripped name, or "N/A" when nothing is left. */
  function CleanSupplier(name: Option<string>): (r: string)
    ensures r != []
    ensures name.None? ==> r == Sentinel
    ensures r == Sentinel || (!IsSpace(r[0]) && !IsSpace(r[|r| - 1]))
  {
    match name
    case None => Sentinel
    case Some(s) =>
      var t := Strip(Redact(s));
      if |t| == 0 then Sentinel else t
  }

  lemma WellFormedPatterns()
    ensures WellFormed(Cnpj) && WellFormed(Cpf) && WellFormed(Separator) && WellFormed(MaskedDigits)
  {
  }

  /** Name characters are never whitespace, so filtering out whitespace first
      changes nothing. */
  lemma {:induction false} NameCharsAreNotSpace(s: string)
    ensures Filter(s, NameChar) == Filter(Filter(s, NotSpace), NameChar)
  {
    if s != [] {
      NameCharsAreNotSpace(s[1..]);
      if NotSpace(s[0]) {
        assert Filter(s, NotSpace) == [s[0]] + Filter(s[1..], NotSpace);
        FilterConcat([s[0]], Filter(s[1..], NotSpace), NameChar);
      } else {
        assert !NameChar(s[0]);
        assert Filter(s, NameChar) == Filter(s[1..], NameChar);
        assert Filter(s, NotSpace) == Filter(s[1..], NotSpace);
      }
    }
  }

  /** Every character of the supplier's name proper (anything but digits,
      whitespace and `. / - *`) survives the cleanup, in its original order,
      and the "N/A" fallback is never taken for a name that has one. */
  lemma CleanKeepsNameChars(s: string)
    ensures Filter(s, NameChar) != [] ==> Filter(CleanSupplier(Some(s)), NameChar) == Filter(s, NameChar)
  {
    var d := Redact(s);
    var t := Strip(d);
    NameCharsAreNotSpace(d);
    NameCharsAreNotSpace(t);
  }

  /** A pass is a no-op on a string that lacks a character every match needs. */
  lemma PassWithoutLiteral(p: Pattern, x: char, s: string)
    requires (p.Shape? && Lit(x) in p.glyphs) || (p.MaskedDigits? && x == '*')
    requires x !in s
    ensures Sub(p, s) == s
  {
    forall i | 0 <= i < |s| ensures MatchLength(p, s[i..]) == 0 {
      var t := s[i..];
      if p.Shape? {
        var k :| 0 <= k < |p.glyphs| && p.glyphs[k] == Lit(x);
        if k < |t| {
          assert t[k] == s[i + k];
          assert !Fits(p.glyphs[k], t[k]);
        }
      } else {
        assert t[0] == s[i];
      }
    }
    SubUnchangedIffMatchFree(p, s);
  }

  /** Where no match starts, a pass keeps the first character. */
  lemma SubKeep(p: Pattern, s: string)
    requires s != [] && MatchLength(p, s) == 0
    ensures Sub(p, s) == [s[0]] + Sub(p, s[1..])
  {
  }

  /** Where a match starts, a pass deletes it and resumes after it. */
  lemma SubSkip(p: Pattern, s: string, n: nat)
    requires s != [] && MatchLength(p, s) == n && n > 0
    ensures Sub(p, s) == Sub(p, s[n..])
  {
  }

  /** " - " matches at the start of `s` exactly when `s` starts with it. */
  lemma SeparatorAt(s: string)
    requires |s| >= 3 && s[0] == ' ' && s[1] == '-' && s[2] == ' '
    ensures MatchLength(Separator, s) == 3
  {
  }

  lemma NoSeparatorAt(s: string)
    requires s != [] && (|s| < 3 || s[0] != ' ' || s[1] != '-' || s[2] != ' ')
    ensures MatchLength(Separator, s) == 0
  {
    if |s| >= 3 {
      var g := Separator.glyphs;
      if s[0] != ' ' {
        assert !Fits(g[0], s[0]);
      } else if s[1] != '-' {
        assert !Fits(g[1], s[1]);
      } else {
        assert !Fits(g[2], s[2]);
      }
    }
  }

  /** Text shorter than " - " holds no separator. */
  lemma {:induction false} ShortNoSeparator(s: string)
    requires |s| < 3
    ensures Sub(Separator, s) == s
    decreases |s|
  {
    if s != [] {
      NoSeparatorAt(s);
      SubKeep(Separator, s);
      ShortNoSeparator(s[1..]);
    }
  }

  /** The four passes of the worked example, one lemma each. */
  lemma CnpjPassExample(s: string, name: string)
    requires s == "ACME LTDA - 12.345.678/0001-99" && name == "ACME LTDA - "
    ensures Sub(Cnpj, s) == name
  {
    var num := "12.345.678/0001-99";
    assert s == name + num;
    assert forall i :: 0 <= i < |name| ==> !IsDigit(name[i]);
    assert CnpjText(num);
    CnpjPass(name, num);
  }

  lemma CpfPassExample(s: string)
    requires s == "ACME LTDA - "
    ensures Sub(Cpf, s) == s
  {
    assert Cpf.glyphs[3] == Lit('.');
    PassWithoutLiteral(Cpf, '.', s);
  }

  lemma MaskPassExample(s: string)
    requires s == "ACME LTDA - "
    ensures Sub(MaskedDigits, s) == s
  {
    PassWithoutLiteral(MaskedDigits, '*', s);
  }

  lemma SeparatorPassExample(s: string)
    requires s == "ACME LTDA - "
    ensures Sub(Separator, s) == "ACME LTDA"
  {
    var rest := " LTDA - ";
    assert s == "ACME" + rest;
    assert "ACME LTDA" == "ACME" + " LTDA";
    SubPassesOver(Separator, "ACME", rest);
    SeparatorExampleEnd(rest);
  }

  lemma SeparatorExampleEnd(s: string)
    requires s == " LTDA - "
    ensures Sub(Separator, s) == " LTDA"
  {
    var sep := " - ";
    assert forall i :: 0 <= i < 4 ==> !CanStart(Separator, "LTDA"[i]);
    assert s == [' '] + ("LTDA" + sep);
    assert s[1..] == "LTDA" + sep;
    assert " LTDA" == [' '] + ("LTDA" + []);
    assert sep[3..] == [];
    NoSeparatorAt(s);
    SubKeep(Separator, s);
    SeparatorAt(sep);
    SubSkip(Separator, sep, 3);
    SubPassesOver(Separator, "LTDA", sep);
  }

  /** Worked example: a name followed by a CNPJ loses the number and the
      separator. */
  lemma CleanCnpjExample(s: string)
    requires s == "ACME LTDA - 12.345.678/0001-99"
    ensures CleanSupplier(Some(s)) == "ACME LTDA"
  {
    var r := Redact(s);
    assert r == "ACME LTDA" by {
      var name := "ACME LTDA - ";
      CnpjPassExample(s, name);
      CpfPassExample(name);
      MaskPassExample(name);
      SeparatorPassExample(name);
    }
    assert Strip(r) == r by {
      StripNoEdgeSpace(r);
    }
  }

  lemma NumberPassesExample(s: string)
    requires s == "****12345****"
    ensures Sub(Cpf, Sub(Cnpj, s)) == s
  {
    assert Cnpj.glyphs[2] == Lit('.') && Cpf.glyphs[3] == Lit('.');
    PassWithoutLiteral(Cnpj, '.', s);
    PassWithoutLiteral(Cpf, '.', s);
  }

  lemma MaskedPassExample(s: string)
    requires s == "****12345****"
    ensures Sub(MaskedDigits, s) == []
  {
    var d := "12345";
    assert s == Mask + d + Mask + [];
    assert s[13..] == [];
    assert AllDigits(d);
    MaskedMatches(d, []);
    SubSkip(MaskedDigits, s, 13);
  }

  /** Worked example: a name that is only a masked number falls back to "N/A". */
  lemma CleanMaskedExample(s: string)
    requires s == "****12345****"
    ensures CleanSupplier(Some(s)) == Sentinel
  {
    NumberPassesExample(s);
    MaskedPassExample(s);
  }

  /** The first three passes leave a string without digits or stars alone. */
  lemma FirstPassesSkip(s: string)
    requires '.' !in s && '*' !in s
    ensures Sub(MaskedDigits, Sub(Cpf, Sub(Cnpj, s))) == s
  {
    assert Cnpj.glyphs[2] == Lit('.') && Cpf.glyphs[3] == Lit('.');
    PassWithoutLiteral(Cnpj, '.', s);
    PassWithoutLiteral(Cpf, '.', s);
    PassWithoutLiteral(MaskedDigits, '*', s);
  }

  /** A name in which no CNPJ, CPF, masked number or `" - "` starts anywhere
      is only stripped: plain numbers and inner whitespace stay. */
  lemma CleanMatchFree(s: string)
    requires MatchFree(Cnpj, s) && MatchFree(Cpf, s) && MatchFree(MaskedDigits, s) && MatchFree(Separator, s)
    ensures CleanSupplier(Some(s)) == if Strip(s) == [] then Sentinel else Strip(s)
  {
    SubUnchangedIffMatchFree(Cnpj, s);
    SubUnchangedIffMatchFree(Cpf, s);
    SubUnchangedIffMatchFree(MaskedDigits, s);
    SubUnchangedIffMatchFree(Separator, s);
    assert Redact(s) == s;
  }

  /** A name without `.`, `*` or `-` and with no whitespace at its ends is
      cleaned to itself, whatever digits and inner spaces it holds. */
  lemma CleanWithoutPatternChars(s: string)
    requires '.' !in s && '*' !in s && '-' !in s
    requires s != [] && !IsSpace(s[0]) && !IsSpace(s[|s| - 1])
    ensures CleanSupplier(Some(s)) == s
  {
    FirstPassesSkip(s);
    assert Separator.glyphs[1] == Lit('-');
    PassWithoutLiteral(Separator, '-', s);
    TrimNoEdge(s, IsSpace);
  }

  /** "ACME 2000 LTDA" keeps its number and its inner spaces. */
  lemma PlainNumberKept(s: string)
    requires s == "ACME 2000 LTDA"
    ensures CleanSupplier(Some(s)) == s
  {
    assert s[0] == 'A' && s[|s| - 1] == 'A';
    CleanWithoutPatternChars(s);
  }

  /** The cleanup is not idempotent: deleting the first " - " of "A  - - B"
      glues a new " - " together, which only a second cleanup removes. */
  lemma CleanNotIdempotent(s: string, t: string)
    requires s == "A  - - B" && t == "A - B"
    ensures CleanSupplier(Some(s)) == t
    ensures CleanSupplier(Some(t)) == "AB"
  {
    FirstCleanup(s, t);
    SecondCleanup(t, "AB");
  }

  lemma FirstCleanup(s: string, t: string)
    requires s == "A  - - B" && t == "A - B"
    ensures CleanSupplier(Some(s)) == t
  {
    assert '.' !in s && '*' !in s;
    assert t != [] && !IsSpace(t[0]) && !IsSpace(t[|t| - 1]);
    FirstPassesSkip(s);
    FirstSeparatorPass(s, t);
    StripNoEdgeSpace(t);
  }

  lemma SecondCleanup(t: string, ab: string)
    requires t == "A - B" && ab == "AB"
    ensures CleanSupplier(Some(t)) == ab
  {
    assert '.' !in t && '*' !in t;
    assert ab != [] && !IsSpace(ab[0]) && !IsSpace(ab[|ab| - 1]);
    FirstPassesSkip(t);
    SecondSeparatorPass(t);
    StripNoEdgeSpace(ab);
  }

  lemma FirstSeparatorPass(s: string, t: string)
    requires s == "A  - - B" && t == "A - B"
    ensures Sub(Separator, s) == t
  {
    var rest := "  - - B";
    assert s == "A" + rest;
    assert t == "A" + " - B";
    assert !CanStart(Separator, 'A');
    SubPassesOver(Separator, "A", rest);
    SeparatorGlue(rest);
  }

  /** Deleting the " - " at index 1 leaves "- B" behind the first space. */
  lemma SeparatorGlue(s: string)
    requires s == "  - - B"
    ensures Sub(Separator, s) == " - B"
  {
    var u := " - - B";
    var tail := "- B";
    assert s == [' '] + u && s[1..] == u;
    assert u[3..] == tail;
    assert " - B" == [' '] + tail;
    assert tail == ['-'] + " B" && tail[1..] == " B";
    NoSeparatorAt(s);
    SubKeep(Separator, s);
    SeparatorAt(u);
    SubSkip(Separator, u, 3);
    NoSeparatorAt(tail);
    SubKeep(Separator, tail);
    ShortNoSeparator(" B");
  }

  lemma SecondSeparatorPass(t: string)
    requires t == "A - B"
    ensures Sub(Separator, t) == "AB"
  {
    var u := " - B";
    assert t == "A" + u;
    assert u[3..] == "B";
    assert "AB" == "A" + "B";
    assert !CanStart(Separator, 'A');
    SubPassesOver(Separator, "A", u);
    SeparatorAt(u);
    SubSkip(Separator, u, 3);
    ShortNoSeparator("B");
  }

  /** Four stars, a run of digits and four stars are always matched by the
      masked pattern, the whole run taken, whatever follows. */
  lemma MaskedMatches(d: string, rest: string)
    requires AllDigits(d) && d != []
    ensures MatchLength(MaskedDigits, Mask + d + Mask + rest) == 8 + |d|
  {
    var after := Mask + rest;
    var s := Mask + d + after;
    assert Mask + d + Mask + rest == s;
    assert s[..4] == Mask;
    assert s[4..] == d + after;
    DigitRunOver(d, after);
    assert s[4..][|d|..] == after;
    assert s[4 + |d|..] == after;
  }

  /** Eighteen characters in the CNPJ layout `DD.DDD.DDD/DDDD-DD`. */
  predicate CnpjText(c: string) {
    |c| == |Cnpj.glyphs| && forall i :: 0 <= i < |c| ==> Fits(Cnpj.glyphs[i], c[i])
  }

  /** A supplier name followed by " - " and a CNPJ is cleaned to the name
      alone, whenever the name has no digit, `*` or `-` and no whitespace at
      its ends. */
  lemma CleanNameThenCnpj(name: string, cnpj: string)
    requires name != [] && !IsSpace(name[0]) && !IsSpace(name[|name| - 1])
    requires forall i :: 0 <= i < |name| ==> !IsDigit(name[i]) && name[i] != '*' && name[i] != '-'
    requires CnpjText(cnpj)
    ensures CleanSupplier(Some(name + " - " + cnpj)) == name
  {
    var head := name + " - ";
    assert name + " - " + cnpj == head + cnpj;
    assert forall i :: 0 <= i < |head| ==> !IsDigit(head[i]) && head[i] != '*';
    CnpjPass(head, cnpj);
    NoDigitPass(Cpf, head);
    assert MaskedDigits.MaskedDigits?;
    PassWithoutLiteral(MaskedDigits, '*', head);
    SeparatorSuffix(name);
    StripNoEdgeSpace(name);
  }

  /** The CNPJ pass deletes a trailing CNPJ after text without digits. */
  lemma CnpjPass(head: string, cnpj: string)
    requires forall i :: 0 <= i < |head| ==> !IsDigit(head[i])
    requires CnpjText(cnpj)
    ensures Sub(Cnpj, head + cnpj) == head
  {
    assert forall i :: 0 <= i < |head| ==> !CanStart(Cnpj, head[i]);
    SubPassesOver(Cnpj, head, cnpj);
    assert MatchLength(Cnpj, cnpj) == 18;
    assert cnpj[18..] == [];
    SubSkip(Cnpj, cnpj, 18);
    assert head + [] == head;
  }

  /** A pattern that starts with a digit leaves text without digits alone. */
  lemma NoDigitPass(p: Pattern, s: string)
    requires p.Shape? && |p.glyphs| > 0 && p.glyphs[0] == AnyDigit
    requires forall i :: 0 <= i < |s| ==> !IsDigit(s[i])
    ensures Sub(p, s) == s
  {
    assert forall i :: 0 <= i < |s| ==> !CanStart(p, s[i]);
    SubPassesOver(p, s, []);
    assert s + [] == s;
  }

  /** The " - " replacement on a name without `-` followed by " - " deletes
      just the final separator. */
  lemma {:induction false} SeparatorSuffix(name: string)
    requires '-' !in name
    ensures Sub(Separator, name + " - ") == name
  {
    var s := name + " - ";
    if name == [] {
      assert s == " - ";
      SeparatorAt(s);
      SubSkip(Separator, s, 3);
      assert s[3..] == [];
    } else {
      assert s[1..] == name[1..] + " - ";
      assert s[0] == name[0];
      assert |s| >= 4 && s[1] != '-' by {
        if |name| > 1 {
          assert s[1] == name[1];
        } else {
          assert s[1] == ' ';
        }
      }
      NoSeparatorAt(s);
      SubKeep(Separator, s);
      SeparatorSuffix(name[1..]);
      assert name == [name[0]] + name[1..];
    }
  }
}
