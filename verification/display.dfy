/** `formatar_valor` of the dashboard: Python formats an amount in the
    English style, `R$ 1,234.56`, and three replacements swap the separators
    to the Brazilian style, `R$ 1.234,56`, using `X` as a placeholder. */
module Display {
  import opened Wrappers
  import opened Text
  import opened Currency

  const Placeholder: char := 'X'

  /** `.replace(',', 'X').replace('.', ',').replace('X', '.')`. */
  function SwapSeparators(s: string): (r: string)
    ensures |r| == |s|
  {
    ReplaceChar(ReplaceChar(ReplaceChar(s, ',', Placeholder), '.', ','), Placeholder, '.')
  }

  /** What the three replacements do to one character: commas and points
      trade places, and a literal `X` is caught up as a point as well. */
  function SwapChar(c: char): char {
    if c == ',' || c == Placeholder then '.' else if c == '.' then ',' else c
  }

  /** The replacements act on each character on its own. */
  lemma SwapSeparatorsPointwise(s: string)
    ensures forall i :: 0 <= i < |s| ==> SwapSeparators(s)[i] == SwapChar(s[i])
  {
    var a := ReplaceChar(s, ',', Placeholder);
    var b := ReplaceChar(a, '.', ',');
    assert forall i :: 0 <= i < |s| ==> b[i] == (if s[i] == ',' then Placeholder else if s[i] == '.' then ',' else s[i]);
  }

  /** Swapping distributes over concatenation. */
  lemma SwapConcat(a: string, b: string)
    ensures SwapSeparators(a + b) == SwapSeparators(a) + SwapSeparators(b)
  {
    SwapSeparatorsPointwise(a + b);
    SwapSeparatorsPointwise(a);
    SwapSeparatorsPointwise(b);
    assert forall i :: |a| <= i < |a + b| ==> (a + b)[i] == b[i - |a|];
  }

  /** Text without commas, points or `X` is left alone. */
  lemma SwapUntouched(s: string)
    requires forall i :: 0 <= i < |s| ==> s[i] != ',' && s[i] != '.' && s[i] != Placeholder
    ensures SwapSeparators(s) == s
  {
    SwapSeparatorsPointwise(s);
  }

  /** On text without `X` the swap undoes itself. */
  lemma SwapInvolution(s: string)
    requires Placeholder !in s
    ensures SwapSeparators(SwapSeparators(s)) == s
  {
    var t := SwapSeparators(s);
    SwapSeparatorsPointwise(s);
    SwapSeparatorsPointwise(t);
    assert forall i :: 0 <= i < |s| ==> s[i] != Placeholder;
  }

  /** A literal `X` does not survive: the swap is not undone on text that has one. */
  lemma PlaceholderCollides(s: string)
    requires s == "X"
    ensures SwapSeparators(SwapSeparators(s)) == ","
  {
    SwapSeparatorsPointwise(s);
    SwapSeparatorsPointwise(SwapSeparators(s));
  }

  /** `f"{valor:,.2f}"` for an amount already at its decimals: English
      grouping with `,` and a decimal point. */
  function EnglishText(d: Decimal): string {
    SignText(d) + (Group(WholePart(d), ',') + (if d.scale > 0 then "." + FractionPart(d) else ""))
  }

  /** `formatar_valor` on an amount already rounded to a whole number of
      cents: "R$ " and the amount in the Brazilian notation the payment file
      uses, so that reading the display back gives the amount. */
  function FormatValue(cents: int): (r: string)
    ensures r == "R$ " + BrazilianText(Decimal(cents, 2))
    ensures ParseCurrency(r[3..]) == Some(Decimal(cents, 2))
  {
    var d := Decimal(cents, 2);
    SwapEnglish(d);
    BrazilianRoundTrip(d);
    assert ("R$ " + BrazilianText(d))[3..] == BrazilianText(d);
    SwapSeparators("R$ " + EnglishText(d))
  }

  /** The three replacements turn English notation after "R$ " into
      Brazilian notation, for every amount. */
  lemma SwapEnglish(d: Decimal)
    ensures SwapSeparators("R$ " + EnglishText(d)) == "R$ " + BrazilianText(d)
  {
    var sign, whole, frac := SignText(d), WholePart(d), FractionPart(d);
    var tail := if d.scale > 0 then "." + frac else "";
    var prefix := "R$ ";
    SwapUntouched(prefix);
    SwapUntouched(sign);
    GroupSwap(whole);
    TailSwap(frac, d.scale > 0);
    calc {
      SwapSeparators(prefix + EnglishText(d));
    == { SwapConcat(prefix, EnglishText(d)); }
      prefix + SwapSeparators(sign + (Group(whole, ',') + tail));
    == { SwapConcat(sign, Group(whole, ',') + tail); }
      prefix + (sign + SwapSeparators(Group(whole, ',') + tail));
    == { SwapConcat(Group(whole, ','), tail); }
      prefix + BrazilianText(d);
    }
  }

  /** The decimal point of the English text becomes the decimal comma. */
  lemma TailSwap(frac: string, present: bool)
    requires AllDigits(frac)
    ensures SwapSeparators(if present then "." + frac else "") == (if present then "," + frac else "")
  {
    DigitsHaveNoSeparator(frac);
    if present {
      SwapConcat(".", frac);
      SwapUntouched(frac);
      SwapSeparatorsPointwise(".");
    } else {
      SwapUntouched("");
    }
  }

  /** English digit grouping swaps to Brazilian digit grouping. */
  lemma {:induction false} GroupSwap(s: string)
    requires AllDigits(s)
    ensures SwapSeparators(Group(s, ',')) == Group(s, '.')
    decreases |s|
  {
    if |s| <= 3 {
      DigitsHaveNoSeparator(s);
      SwapUntouched(s);
    } else {
      var n := |s| - 3;
      var front, back := s[..n], s[n..];
      GroupSwap(front);
      DigitsHaveNoSeparator(back);
      SwapUntouched(back);
      SwapSeparatorsPointwise([',']);
      calc {
        SwapSeparators(Group(front, ',') + [','] + back);
      == { SwapConcat(Group(front, ',') + [','], back); SwapConcat(Group(front, ','), [',']); }
        Group(front, '.') + ['.'] + back;
      }
    }
  }

  /** `R$ 1,234.56` is shown as `R$ 1.234,56`. */
  lemma SwapExample(s: string)
    requires s == "R$ 1,234.56"
    ensures SwapSeparators(s) == "R$ 1.234,56"
  {
    SwapSeparatorsPointwise(s);
  }
}
