/** Currency parsing of the `valor` column: the text has every `.` deleted
    and then every `,` turned into `.`, and the result is read by Python's
    `float()`. The model reads the number as an exact decimal instead of a
    binary double. */
module Currency {
  import opened Wrappers
  import opened Text

  /** The number `mantissa / 10^scale`. */
  datatype Decimal = Decimal(mantissa: int, scale: nat)

  function Pow10(n: nat): (r: nat)
    ensures r >= 1
  {
    if n == 0 then 1 else 10 * Pow10(n - 1)
  }

  /** The exact value a decimal stands for. */
  function Value(d: Decimal): real {
    d.mantissa as real / Pow10(d.scale) as real
  }

  /** Value of a string of decimal digits, most significant first. */
  function DigitsValue(s: string): nat
    requires AllDigits(s)
  {
    if s == [] then 0 else DigitsValue(s[..|s| - 1]) * 10 + DigitValue(s[|s| - 1])
  }

  /** The text transform of the `valor` column: thousands separators `.`
      deleted, then the decimal comma turned into a point. */
  function BrazilianToPlain(s: string): (r: string)
    ensures ',' !in r
    ensures |r| <= |s|
  {
    ReplaceChar(DeleteChar(s, '.'), ',', '.')
  }

  /** The mantissa without its sign. */
  function Magnitude(d: Decimal): nat {
    if d.mantissa < 0 then -d.mantissa else d.mantissa
  }

  function Signed(negative: bool, magnitude: nat, scale: nat): Decimal {
    Decimal(if negative then -(magnitude as int) else magnitude, scale)
  }

  /** The whitespace CPython's `float()` skips around a number, within
      Latin-1: the C-locale spaces TAB..CR and SPACE, plus NEL and NO-BREAK
      SPACE, which are turned into a space first. The information separators
      U+001C..U+001F are whitespace to `str.isspace()` but not to `float()`. */
  predicate FloatSpace(c: char) {
    ('\t' <= c <= '\r') || c == ' ' || c == '\U{85}' || c == '\U{A0}'
  }

  /** Digits with at most one point and at least one digit in all, as in
      `12`, `12.5`, `.5` and `12.`. */
  predicate UnsignedSpelling(body: string) {
    var p := Find(body, '.');
    AllDigits(body[..p]) && (p < |body| ==> AllDigits(body[p + 1..])) && (p > 0 || p + 1 < |body|)
  }

  /** Number of digits after the point. */
  function Decimals(body: string): nat {
    var p := Find(body, '.');
    if p < |body| then |body| - p - 1 else 0
  }

  /** The text `float()` accepts in this model: whitespace, an optional sign,
      an unsigned spelling, whitespace. */
  predicate NumberSpelling(s: string) {
    UnsignedSpelling(SplitSign(Trim(s, FloatSpace)).1)
  }

  /** The digit run at the start of a number ends at its point, if any. */
  lemma RunMeetsPoint(body: string)
    ensures UnsignedSpelling(body) ==> DigitRun(body) == Find(body, '.')
    ensures DigitRun(body) == |body| ==> Find(body, '.') == |body|
    ensures DigitRun(body) < |body| && body[DigitRun(body)] == '.' ==> Find(body, '.') == DigitRun(body)
  {
    var i, p := DigitRun(body), Find(body, '.');
    if i < p {
      assert body[i] in body[..p];
    }
  }

  /** Digits with an optional point, at least one digit in all: the
      magnitude as a digit-string value and the number of decimals. */
  function ParseUnsigned(body: string): (r: Option<(nat, nat)>)
    ensures r.Some? <==> UnsignedSpelling(body)
    ensures r.Some? ==> r.value.1 == Decimals(body)
    ensures r.Some? ==> AllDigits(DeleteChar(body, '.')) && r.value.0 == DigitsValue(DeleteChar(body, '.'))
  {
    RunMeetsPoint(body);
    var i := DigitRun(body);
    var whole, rest := body[..i], body[i..];
    assert rest != [] ==> rest[1..] == body[i + 1..];
    if rest == [] then
      if i == 0 then None
      else
        assert body == whole;
        DigitsHaveNoSeparator(whole);
        DeleteAbsent(whole, '.');
        Some((DigitsValue(whole), 0))
    else if rest[0] != '.' || !AllDigits(rest[1..]) || (i == 0 && |rest| == 1) then None
    else
      assert body == whole + "." + rest[1..];
      DeletePoint(whole, rest[1..]);
      Some((DigitsValue(whole + rest[1..]), |rest| - 1))
  }

  /** Deleting the point of `whole.frac` leaves the digits of both parts. */
  lemma DeletePoint(whole: string, frac: string)
    requires AllDigits(whole) && AllDigits(frac)
    ensures DeleteChar(whole + "." + frac, '.') == whole + frac
    ensures AllDigits(whole + frac)
  {
    var dot := ['.'] + frac;
    assert whole + "." + frac == whole + dot;
    DigitsHaveNoSeparator(whole);
    DigitsHaveNoSeparator(frac);
    DeleteAbsent(whole, '.');
    DeleteAbsent(frac, '.');
    DeleteCharConcat(whole, dot, '.');
    assert DeleteChar(dot, '.') == frac;
    DigitsConcat(whole, frac);
  }

  lemma DigitsConcat(a: string, b: string)
    requires AllDigits(a) && AllDigits(b)
    ensures AllDigits(a + b)
  {
  }

  /** Python's `float()` on plain decimal notation: surrounding whitespace,
      an optional sign, then digits with an optional point. It accepts exactly
      the number spellings, with as many decimals as the spelling has, and
      the minus sign makes a nonzero amount negative. */
  function ParseNumber(s: string): (r: Option<Decimal>)
    ensures r.Some? <==> NumberSpelling(s)
    ensures r.Some? ==> r.value.scale == Decimals(SplitSign(Trim(s, FloatSpace)).1)
    ensures r.Some? && r.value.mantissa != 0 ==> (r.value.mantissa < 0 <==> SplitSign(Trim(s, FloatSpace)).0)
    ensures r.Some? ==> AllDigits(DeleteChar(SplitSign(Trim(s, FloatSpace)).1, '.'))
    ensures r.Some? ==> Magnitude(r.value) == DigitsValue(DeleteChar(SplitSign(Trim(s, FloatSpace)).1, '.'))
  {
    var (negative, body) := SplitSign(Trim(s, FloatSpace));
    match ParseUnsigned(body)
    case None => None
    case Some((m, k)) => Some(Signed(negative, m, k))
  }

  /** A leading `-` or `+` taken off, with whether it was a minus. */
  function SplitSign(t: string): (bool, string) {
    if |t| > 0 && (t[0] == '-' || t[0] == '+') then (t[0] == '-', t[1..]) else (false, t)
  }

  /** One `valor` cell: the Brazilian text converted and read as a number. */
  function ParseCurrency(s: string): (r: Option<Decimal>)
    ensures r.Some? <==> NumberSpelling(BrazilianToPlain(s))
  {
    ParseNumber(BrazilianToPlain(s))
  }

  // ----- Writing decimals back as text, the partner of the parser -----

  /** Decimal digits of `n`, without leading zeros. */
  function NatDigits(n: nat): (s: string)
    ensures AllDigits(s) && |s| >= 1
    ensures DigitsValue(s) == n
  {
    if n < 10 then
      assert [DigitChar(n)][..0] == [];
      [DigitChar(n)]
    else
      var front := NatDigits(n / 10);
      assert (front + [DigitChar(n % 10)])[..|front|] == front;
      front + [DigitChar(n % 10)]
  }

  function Zeros(k: nat): (s: string)
    ensures |s| == k && AllDigits(s)
  {
    seq(k, _ => '0')
  }

  /** Leading zeros do not change the value of a digit string. */
  lemma {:induction false} LeadingZeros(k: nat, s: string)
    requires AllDigits(s)
    ensures AllDigits(Zeros(k) + s)
    ensures DigitsValue(Zeros(k) + s) == DigitsValue(s)
    decreases |s|
  {
    var z := Zeros(k) + s;
    if s == [] {
      assert z == Zeros(k);
      ZerosValue(k);
    } else {
      var n := |s| - 1;
      assert z[..|z| - 1] == Zeros(k) + s[..n];
      LeadingZeros(k, s[..n]);
    }
  }

  lemma {:induction false} ZerosValue(k: nat)
    ensures DigitsValue(Zeros(k)) == 0
  {
    if k > 0 {
      assert Zeros(k)[..k - 1] == Zeros(k - 1);
      ZerosValue(k - 1);
    }
  }

  /** The digits of `|mantissa|`, padded with zeros to at least `scale + 1`
      digits so that a whole part is always written. */
  function PaddedDigits(d: Decimal): (s: string)
    ensures AllDigits(s) && |s| > d.scale
    ensures DigitsValue(s) == if d.mantissa < 0 then -d.mantissa else d.mantissa
  {
    var m: nat := if d.mantissa < 0 then -d.mantissa else d.mantissa;
    var digits := NatDigits(m);
    if |digits| <= d.scale then
      LeadingZeros(d.scale + 1 - |digits|, digits);
      Zeros(d.scale + 1 - |digits|) + digits
    else digits
  }

  function SignText(d: Decimal): string {
    if d.mantissa < 0 then "-" else ""
  }

  function WholePart(d: Decimal): (s: string)
    ensures AllDigits(s) && |s| >= 1
  {
    var p := PaddedDigits(d);
    p[..|p| - d.scale]
  }

  function FractionPart(d: Decimal): (s: string)
    ensures AllDigits(s) && |s| == d.scale
  {
    var p := PaddedDigits(d);
    p[|p| - d.scale..]
  }

  /** Plain notation, `-1234.56`: what `float()` reads. */
  function PlainText(d: Decimal): string {
    Render(d.mantissa < 0, WholePart(d), FractionPart(d))
  }

  /** Groups of three digits separated by `sep`, counted from the right. */
  function Group(s: string, sep: char): string
    decreases |s|
  {
    if |s| <= 3 then s else Group(s[..|s| - 3], sep) + [sep] + s[|s| - 3..]
  }

  /** Deleting the points of a grouped digit string gives the digits back. */
  lemma {:induction false} GroupThenDelete(s: string)
    requires AllDigits(s)
    ensures DeleteChar(Group(s, '.'), '.') == s
    decreases |s|
  {
    if |s| <= 3 {
      DigitsHaveNoSeparator(s);
      DeleteAbsent(s, '.');
    } else {
      var n := |s| - 3;
      GroupThenDelete(s[..n]);
      DeleteGroupStep(Group(s[..n], '.'), s[..n], s[n..]);
      assert s == s[..n] + s[n..];
    }
  }

  lemma DeleteGroupStep(grouped: string, front: string, back: string)
    requires DeleteChar(grouped, '.') == front
    requires AllDigits(back)
    ensures DeleteChar(grouped + "." + back, '.') == front + back
  {
    DigitsHaveNoSeparator(back);
    calc {
      DeleteChar(grouped + "." + back, '.');
    == { assert grouped + "." + back == grouped + (['.'] + back); }
      DeleteChar(grouped + (['.'] + back), '.');
    == { DeleteCharConcat(grouped, ['.'] + back, '.'); }
      front + DeleteChar(['.'] + back, '.');
    == { DeleteHead(back, '.'); DeleteAbsent(back, '.'); }
      front + back;
    }
  }


  /** Brazilian notation, `-1.234,56`: what the payment file holds. */
  function BrazilianText(d: Decimal): string {
    SignText(d) + (Group(WholePart(d), '.') + (if d.scale > 0 then "," + FractionPart(d) else ""))
  }

  /** A digit string has no point and no comma. */
  lemma DigitsHaveNoSeparator(s: string)
    requires AllDigits(s)
    ensures '.' !in s && ',' !in s
  {
  }

  lemma {:induction false} DeleteAbsent(s: string, c: char)
    requires c !in s
    ensures DeleteChar(s, c) == s
  {
    if s != [] {
      DeleteAbsent(s[1..], c);
      assert s == [s[0]] + s[1..];
    }
  }

  lemma {:induction false} ReplaceAbsent(s: string, a: char, b: char)
    requires a !in s
    ensures ReplaceChar(s, a, b) == s
  {
    if s != [] {
      ReplaceAbsent(s[1..], a, b);
      assert s == [s[0]] + s[1..];
    }
  }

  /** Deleting the thousands points and turning the comma into a point
      carries Brazilian notation to plain notation. */
  lemma BrazilianToPlainText(d: Decimal)
    ensures BrazilianToPlain(BrazilianText(d)) == PlainText(d)
  {
    var sign, whole, frac := SignText(d), WholePart(d), FractionPart(d);
    var tail := if d.scale > 0 then "," + frac else "";
    var plainTail := if d.scale > 0 then "." + frac else "";
    DigitsHaveNoSeparator(whole);
    DeleteAbsent(sign, '.');
    ReplaceAbsent(sign, ',', '.');
    ReplaceAbsent(whole, ',', '.');
    TailConverts(frac, d.scale > 0);
    calc {
      DeleteChar(BrazilianText(d), '.');
    == { DeleteCharConcat(sign, Group(whole, '.') + tail, '.'); }
      sign + DeleteChar(Group(whole, '.') + tail, '.');
    == { DeleteCharConcat(Group(whole, '.'), tail, '.'); GroupThenDelete(whole); }
      sign + (whole + tail);
    }
    calc {
      ReplaceChar(sign + (whole + tail), ',', '.');
    == { ReplaceCharConcat(sign, whole + tail, ',', '.'); }
      sign + ReplaceChar(whole + tail, ',', '.');
    == { ReplaceCharConcat(whole, tail, ',', '.'); }
      sign + (whole + plainTail);
    }
  }

  /** The decimal-comma part of Brazilian notation: no point to delete, and
      the comma becomes the decimal point. */
  lemma TailConverts(frac: string, present: bool)
    requires AllDigits(frac)
    ensures DeleteChar(if present then "," + frac else "", '.') == (if present then "," + frac else "")
    ensures ReplaceChar(if present then "," + frac else "", ',', '.') == (if present then "." + frac else "")
  {
    DigitsHaveNoSeparator(frac);
    if present {
      DeleteAbsent("," + frac, '.');
      ReplaceCharConcat(",", frac, ',', '.');
      ReplaceAbsent(frac, ',', '.');
      assert ReplaceChar(",", ',', '.') == ".";
    } else {
      DeleteAbsent("", '.');
      ReplaceAbsent("", ',', '.');
    }
  }

  /** Whole digits, then a point and the fraction digits when there are any,
      read back as their digit-string value and the number of decimals. */
  lemma ParseUnsignedDigits(whole: string, frac: string)
    requires AllDigits(whole) && |whole| >= 1 && AllDigits(frac)
    ensures ParseUnsigned(whole + (if |frac| > 0 then "." + frac else "")) == Some((DigitsValue(whole + frac), |frac|))
  {
    var tail := if |frac| > 0 then "." + frac else "";
    var body := whole + tail;
    DigitRunOver(whole, tail);
    assert body[..|whole|] == whole && body[|whole|..] == tail;
    if |frac| > 0 {
      assert tail[1..] == frac;
    } else {
      assert whole + frac == whole;
    }
  }

  /** Sign, whole digits and fraction digits in plain notation. */
  function Render(negative: bool, whole: string, frac: string): string {
    (if negative then "-" else "") + (whole + (if |frac| > 0 then "." + frac else ""))
  }

  /** `float()` reads rendered plain notation back to its parts. */
  lemma ParseRender(negative: bool, whole: string, frac: string)
    requires AllDigits(whole) && |whole| >= 1 && AllDigits(frac)
    ensures ParseNumber(Render(negative, whole, frac)) == Some(Signed(negative, DigitsValue(whole + frac), |frac|))
  {
    var body := whole + (if |frac| > 0 then "." + frac else "");
    assert Render(negative, whole, frac) == (if negative then "-" else "") + body;
    assert IsDigit(body[0]) && IsDigit(body[|body| - 1]) by {
      assert body[0] == whole[0];
      assert body[|body| - 1] == (if |frac| > 0 then frac[|frac| - 1] else whole[|whole| - 1]);
    }
    assert ParseUnsigned(body) == Some((DigitsValue(whole + frac), |frac|)) by {
      ParseUnsignedDigits(whole, frac);
    }
    ParseSigned(negative, body, DigitsValue(whole + frac), |frac|);
  }

  /** An optional minus sign before an unsigned number, with no whitespace
      around it, gives that number with the sign applied. */
  lemma ParseSigned(negative: bool, body: string, m: nat, k: nat)
    requires |body| > 0 && IsDigit(body[0]) && IsDigit(body[|body| - 1])
    requires ParseUnsigned(body) == Some((m, k))
    ensures ParseNumber((if negative then "-" else "") + body) == Some(Signed(negative, m, k))
  {
    var s := (if negative then "-" else "") + body;
    TrimSigned(negative, body);
    SplitSignOf(negative, body, s);
    ParseNumberOf(negative, body, s, m, k);
  }

  lemma TrimSigned(negative: bool, body: string)
    requires |body| > 0 && IsDigit(body[0]) && IsDigit(body[|body| - 1])
    ensures Trim((if negative then "-" else "") + body, FloatSpace) == (if negative then "-" else "") + body
  {
    var s := (if negative then "-" else "") + body;
    assert s[|s| - 1] == body[|body| - 1];
    assert s[0] == if negative then '-' else body[0];
    TrimNoEdge(s, FloatSpace);
  }

  lemma SplitSignOf(negative: bool, body: string, s: string)
    requires |body| > 0 && IsDigit(body[0])
    requires s == (if negative then "-" else "") + body
    ensures SplitSign(s) == (negative, body)
  {
    assert s[0] == if negative then '-' else body[0];
    assert (if negative then s[1..] else s) == body;
  }

  lemma ParseNumberOf(negative: bool, body: string, s: string, m: nat, k: nat)
    requires Trim(s, FloatSpace) == s && SplitSign(s) == (negative, body)
    requires ParseUnsigned(body) == Some((m, k))
    ensures ParseNumber(s) == Some(Signed(negative, m, k))
  {
  }

  /** `float()` reads plain notation back to the same decimal. */
  lemma PlainTextParses(d: Decimal)
    ensures ParseNumber(PlainText(d)) == Some(d)
  {
    var whole, frac := WholePart(d), FractionPart(d);
    assert PlainText(d) == Render(d.mantissa < 0, whole, frac);
    ParseRender(d.mantissa < 0, whole, frac);
    var p := PaddedDigits(d);
    SplitJoin(p, |p| - d.scale);
    assert whole + frac == p;
  }

  lemma SplitJoin(p: string, k: nat)
    requires k <= |p|
    ensures p[..k] + p[k..] == p
  {
  }

  /** Every decimal written in Brazilian notation, with thousands points and
      a decimal comma, is read back exactly. */
  lemma BrazilianRoundTrip(d: Decimal)
    ensures ParseCurrency(BrazilianText(d)) == Some(d)
  {
    BrazilianToPlainText(d);
    PlainTextParses(d);
  }

  /** `1.234,56` is one thousand two hundred thirty-four and 56 cents. */
  lemma ParseCurrencyExample(s: string)
    requires s == "1.234,56"
    ensures ParseCurrency(s) == Some(Decimal(123456, 2))
    ensures Value(Decimal(123456, 2)) == 1234.56
  {
    ConvertExample(s);
    PlainExample(BrazilianToPlain(s));
    CentsValue(123456);
  }

  /** A two-decimal amount is its mantissa in hundredths. */
  lemma CentsValue(m: int)
    ensures Value(Decimal(m, 2)) == m as real / 100.0
  {
    assert Pow10(2) == 100;
  }

  lemma PlainExample(t: string)
    requires t == "1234.56"
    ensures ParseNumber(t) == Some(Decimal(123456, 2))
  {
    var whole, frac := "1234", "56";
    assert t == Render(false, whole, frac) by {
      LiteralJoin(t);
    }
    ParseRender(false, whole, frac);
    DigitsValueSteps(whole + frac);
  }

  lemma LiteralJoin(t: string)
    requires t == "1234.56"
    ensures t == "" + ("1234" + ("." + "56"))
  {
  }

  lemma ConvertExample(s: string)
    requires s == "1.234,56"
    ensures BrazilianToPlain(s) == "1234.56"
  {
    var afterDelete := "1" + "234,56";
    assert DeleteChar(s, '.') == afterDelete by {
      LiteralSplitPoint(s);
      DeleteOnePoint("1", "234,56");
    }
    assert ReplaceChar(afterDelete, ',', '.') == "1234.56" by {
      LiteralSplitComma(afterDelete);
      ReplaceOneComma("1234", "56");
    }
  }

  lemma LiteralSplitPoint(s: string)
    requires s == "1.234,56"
    ensures s == "1" + ("." + "234,56")
  {
  }

  lemma LiteralSplitComma(s: string)
    requires s == "1" + "234,56"
    ensures s == "1234" + ("," + "56") && "1234" + ("." + "56") == "1234.56"
  {
  }


  lemma ReplaceOneComma(a: string, b: string)
    requires ',' !in a && ',' !in b
    ensures ReplaceChar(a + ("," + b), ',', '.') == a + ("." + b)
  {
    var t := "," + b;
    calc {
      ReplaceChar(a + t, ',', '.');
    == { ReplaceCharConcat(a, t, ',', '.'); }
      ReplaceChar(a, ',', '.') + ReplaceChar(t, ',', '.');
    == { ReplaceAbsent(a, ',', '.'); ReplaceHead(b, ',', '.'); }
      a + ("." + ReplaceChar(b, ',', '.'));
    == { ReplaceAbsent(b, ',', '.'); }
      a + ("." + b);
    }
  }

  lemma ReplaceHead(b: string, x: char, y: char)
    ensures ReplaceChar([x] + b, x, y) == [y] + ReplaceChar(b, x, y)
  {
    assert ([x] + b)[1..] == b;
  }


  lemma DeleteOnePoint(a: string, b: string)
    requires '.' !in a && '.' !in b
    ensures DeleteChar(a + ("." + b), '.') == a + b
  {
    var t := "." + b;
    calc {
      DeleteChar(a + t, '.');
    == { DeleteCharConcat(a, t, '.'); }
      DeleteChar(a, '.') + DeleteChar(t, '.');
    == { DeleteAbsent(a, '.'); DeleteHead(b, '.'); }
      a + DeleteChar(b, '.');
    == { DeleteAbsent(b, '.'); }
      a + b;
    }
  }

  lemma DeleteHead(b: string, c: char)
    ensures DeleteChar([c] + b, c) == DeleteChar(b, c)
  {
    assert ([c] + b)[1..] == b;
  }

  /** Two decimal commas become two points, which `float()` rejects. */
  lemma ParseCurrencyTwoCommas(s: string)
    requires s == "1,2,3"
    ensures ParseCurrency(s) == None
  {
    var plain := BrazilianToPlain(s);
    assert DeleteChar(s, '.') == s by { DeleteAbsent(s, '.'); }
    assert plain == "1.2.3";
    assert Trim(plain, FloatSpace) == plain by { TrimNoEdge(plain, FloatSpace); }
    assert SplitSign(plain) == (false, plain);
    assert DigitRun(plain) == 1 by {
      assert plain == "1" + ".2.3";
      DigitRunOver("1", ".2.3");
    }
    assert plain[2..][1] == '.';
  }

  lemma DigitsValueSteps(s: string)
    requires s == "1234" + "56"
    ensures DigitsValue(s) == 123456
  {
    DigitsValueSnoc("", '1');
    assert "" + ['1'] == "1";
    DigitsValueSnoc("1", '2');
    assert "1" + ['2'] == "12";
    DigitsValueSnoc("12", '3');
    assert "12" + ['3'] == "123";
    DigitsValueSnoc("123", '4');
    assert "123" + ['4'] == "1234";
    DigitsValueSnoc("1234", '5');
    assert "1234" + ['5'] == "12345";
    DigitsValueSnoc("12345", '6');
    assert "12345" + ['6'] == s;
  }

  lemma DigitsValueSnoc(s: string, c: char)
    requires AllDigits(s) && IsDigit(c)
    ensures AllDigits(s + [c])
    ensures DigitsValue(s + [c]) == DigitsValue(s) * 10 + DigitValue(c)
  {
    assert (s + [c])[..|s|] == s;
  }

  /** `float()` skips a tab or a no-break space around a number, but not the
      information separator U+001C, which `str.isspace()` would skip. */
  lemma FloatSpaceExamples(tab: string, nbsp: string, sep: string)
    requires tab == "\t1" && nbsp == "1\U{A0}" && sep == "\U{1C}1"
    ensures ParseNumber(tab) == Some(Decimal(1, 0))
    ensures ParseNumber(nbsp) == Some(Decimal(1, 0))
    ensures ParseNumber(sep) == None
  {
    var one := "1";
    ParseOne(one);
    TrimTab(tab, one);
    TrimNbsp(nbsp, one);
    SameTrim(tab, one);
    SameTrim(nbsp, one);
    SeparatorNotSkipped(sep);
  }

  /** `float()` depends on the text only through what is left once its
      whitespace is cut off. */
  lemma SameTrim(x: string, y: string)
    requires Trim(x, FloatSpace) == Trim(y, FloatSpace)
    ensures ParseNumber(x) == ParseNumber(y)
  {
  }

  lemma TrimTab(tab: string, one: string)
    requires tab == "\t1" && one == "1"
    ensures Trim(tab, FloatSpace) == Trim(one, FloatSpace) == one
  {
    TrimNoEdge(one, FloatSpace);
    assert tab[1..] == one;
    assert LeadingSpace(tab, FloatSpace) == 1;
    assert TrailingSpace(tab, FloatSpace) == 0;
  }

  lemma TrimNbsp(nbsp: string, one: string)
    requires nbsp == "1\U{A0}" && one == "1"
    ensures Trim(nbsp, FloatSpace) == Trim(one, FloatSpace) == one
  {
    TrimNoEdge(one, FloatSpace);
    assert nbsp[..1] == one;
    assert LeadingSpace(nbsp, FloatSpace) == 0;
    assert TrailingSpace(nbsp, FloatSpace) == 1;
  }

  /** `float()` reads a bare fraction, a trailing point and a plus sign:
      ".5" is 0.5, "5." is 5 and "+5" is 5. */
  lemma ShortSpellings(frac: string, point: string, plus: string)
    requires frac == ".5" && point == "5." && plus == "+5"
    ensures ParseNumber(frac) == Some(Decimal(5, 1))
    ensures ParseNumber(point) == Some(Decimal(5, 0))
    ensures ParseNumber(plus) == Some(Decimal(5, 0))
  {
    BareFraction(frac);
    TrailingPoint(point);
    PlusSign(plus);
  }

  /** A number spelling without a minus sign reads as its digits, scaled by
      its decimals. */
  lemma ReadsAs(t: string, m: nat, k: nat)
    requires NumberSpelling(t) && !SplitSign(Trim(t, FloatSpace)).0
    requires AllDigits(DeleteChar(SplitSign(Trim(t, FloatSpace)).1, '.'))
    requires DigitsValue(DeleteChar(SplitSign(Trim(t, FloatSpace)).1, '.')) == m
    requires Decimals(SplitSign(Trim(t, FloatSpace)).1) == k
    ensures ParseNumber(t) == Some(Decimal(m, k))
  {
    var r := ParseNumber(t);
    assert Magnitude(r.value) == m;
    assert r.value.mantissa >= 0;
  }

  lemma BareFraction(t: string)
    requires t == ".5"
    ensures ParseNumber(t) == Some(Decimal(5, 1))
  {
    TrimNoEdge(t, FloatSpace);
    assert SplitSign(t) == (false, t);
    assert Find(t, '.') == 0;
    assert t[1..] == "5";
    assert UnsignedSpelling(t);
    assert DeleteChar(t, '.') == "5";
    FiveDigits("5");
    ReadsAs(t, 5, 1);
  }

  lemma TrailingPoint(t: string)
    requires t == "5."
    ensures ParseNumber(t) == Some(Decimal(5, 0))
  {
    TrimNoEdge(t, FloatSpace);
    assert SplitSign(t) == (false, t);
    assert Find(t, '.') == 1;
    assert t[..1] == "5";
    assert UnsignedSpelling(t);
    assert DeleteChar(t, '.') == "5";
    FiveDigits("5");
    ReadsAs(t, 5, 0);
  }

  lemma PlusSign(t: string)
    requires t == "+5"
    ensures ParseNumber(t) == Some(Decimal(5, 0))
  {
    TrimNoEdge(t, FloatSpace);
    assert SplitSign(t) == (false, "5");
    assert Find("5", '.') == 1;
    assert UnsignedSpelling("5");
    DeleteAbsent("5", '.');
    FiveDigits("5");
    ReadsAs(t, 5, 0);
  }

  lemma FiveDigits(t: string)
    requires t == "5"
    ensures AllDigits(t) && DigitsValue(t) == 5
  {
    assert t[..0] == "";
  }

  lemma ParseOne(t: string)
    requires t == "1"
    ensures ParseNumber(t) == Some(Decimal(1, 0))
  {
    assert Trim(t, FloatSpace) == t by {
      TrimNoEdge(t, FloatSpace);
    }
    assert DigitRun(t) == 1;
    assert DigitsValue(t) == 1 by {
      assert t[..0] == "";
    }
  }

  /** "\U{1C}1" is not a number to `float()`: U+001C is not skipped. */
  lemma SeparatorNotSkipped(sep: string)
    requires sep == "\U{1C}1"
    ensures ParseNumber(sep) == None
  {
    assert Trim(sep, FloatSpace) == sep by {
      TrimNoEdge(sep, FloatSpace);
    }
    assert DigitRun(sep) == 0;
  }
}
