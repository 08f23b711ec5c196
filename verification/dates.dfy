/** Date parsing of the `data` column: `pd.to_datetime(..., format='%d/%m/%Y',
    errors='coerce')`. The format is matched as CPython's `_strptime` regular
    expressions do (`%d` is `3[01]|[12]\d|0[1-9]|[1-9]| [1-9]`, `%m` is
    `1[0-2]|0[1-9]|[1-9]`, `%Y` is four digits), the whole text must match,
    the date must exist in the proleptic Gregorian calendar, and it must fit a
    nanosecond `Timestamp`. Any failure gives a missing date (NaT) instead of
    an error. */
module Dates {
  import opened Wrappers
  import opened Text

  datatype Date = Date(year: int, month: int, day: int)

  predicate IsLeapYear(y: int) {
    y % 4 == 0 && (y % 100 != 0 || y % 400 == 0)
  }

  function DaysInMonth(y: int, m: int): int
    requires 1 <= m <= 12
  {
    if m == 2 then (if IsLeapYear(y) then 29 else 28)
    else if m == 4 || m == 6 || m == 9 || m == 11 then 30
    else 31
  }

  /** `a` comes strictly after `b` in the calendar. */
  predicate After(a: Date, b: Date) {
    a.year > b.year || (a.year == b.year && (a.month > b.month || (a.month == b.month && a.day > b.day)))
  }

  /** The first and last whole days a nanosecond `Timestamp` can hold:
      `Timestamp.min` is a few minutes into 21 September 1677 and
      `Timestamp.max` is late on 11 April 2262. */
  const FirstDay := Date(1677, 9, 22)
  const LastDay := Date(2262, 4, 11)

  /** A calendar date a pandas `Timestamp` can hold. */
  predicate ValidDate(d: Date) {
    && 1 <= d.month <= 12 && 1 <= d.day <= DaysInMonth(d.year, d.month)
    && !After(FirstDay, d) && !After(d, LastDay)
  }

  /** Two digits with a leading zero, as `strftime` writes `%d` and `%m`. */
  function Pad2(n: int): string
    requires 0 <= n <= 99
  {
    [DigitChar(n / 10), DigitChar(n % 10)]
  }

  /** Four digits with leading zeros, as `strftime` writes `%Y`. */
  function Pad4(n: int): string
    requires 0 <= n <= 9999
  {
    [DigitChar(n / 1000), DigitChar(n / 100 % 10), DigitChar(n / 10 % 10), DigitChar(n % 10)]
  }

  /** The `%d` field: one digit 1-9, a space and a digit 1-9, or two digits
      with value 1..31. */
  function DayField(t: string): Option<int> {
    if |t| == 1 && '1' <= t[0] <= '9' then Some(DigitValue(t[0]))
    else if |t| == 2 && t[0] == ' ' && '1' <= t[1] <= '9' then Some(DigitValue(t[1]))
    else if |t| == 2 && IsDigit(t[0]) && IsDigit(t[1]) && 1 <= 10 * DigitValue(t[0]) + DigitValue(t[1]) <= 31 then
      Some(10 * DigitValue(t[0]) + DigitValue(t[1]))
    else None
  }

  /** The `%m` field: one digit 1-9, or two digits with value 1..12. */
  function MonthField(t: string): Option<int> {
    if |t| == 1 && '1' <= t[0] <= '9' then Some(DigitValue(t[0]))
    else if |t| == 2 && IsDigit(t[0]) && IsDigit(t[1]) && 1 <= 10 * DigitValue(t[0]) + DigitValue(t[1]) <= 12 then
      Some(10 * DigitValue(t[0]) + DigitValue(t[1]))
    else None
  }

  /** The `%Y` field: exactly four digits. */
  function YearField(t: string): Option<int> {
    if |t| == 4 && IsDigit(t[0]) && IsDigit(t[1]) && IsDigit(t[2]) && IsDigit(t[3]) then
      Some(1000 * DigitValue(t[0]) + 100 * DigitValue(t[1]) + 10 * DigitValue(t[2]) + DigitValue(t[3]))
    else None
  }

  /** `%d/%m/%Y` applied to a whole text. The fields contain no `/`, so the
      first two slashes are the separators. */
  function ParseDate(s: string): (r: Option<Date>)
    ensures r.Some? ==> ValidDate(r.value)
  {
    var i := Find(s, '/');
    if i == |s| then None
    else
      var rest := s[i + 1..];
      var j := Find(rest, '/');
      if j == |rest| then None
      else
        var day, month, year := DayField(s[..i]), MonthField(rest[..j]), YearField(rest[j + 1..]);
        if day.None? || month.None? || year.None? then None
        else
          var d := Date(year.value, month.value, day.value);
          if ValidDate(d) then Some(d) else None
  }

  /** One cell of the date column: a missing cell is a missing date. */
  function ParseDateCell(cell: Option<string>): (r: Option<Date>)
    ensures cell.None? ==> r.None?
    ensures r.Some? ==> ValidDate(r.value)
  {
    match cell
    case None => None
    case Some(s) => ParseDate(s)
  }

  /** `strftime('%d/%m/%Y')`. */
  function FormatDate(d: Date): string
    requires ValidDate(d)
  {
    Pad2(d.day) + "/" + Pad2(d.month) + "/" + Pad4(d.year)
  }

  /** The texts `%d` accepts for a day number. */
  predicate DaySpelling(t: string, v: int) {
    1 <= v <= 31 && (t == Pad2(v) || (v <= 9 && (t == [DigitChar(v)] || t == [' ', DigitChar(v)])))
  }

  /** The texts `%m` accepts for a month number. */
  predicate MonthSpelling(t: string, v: int) {
    1 <= v <= 12 && (t == Pad2(v) || (v <= 9 && t == [DigitChar(v)]))
  }

  lemma DayFieldIff(t: string, v: int)
    ensures DayField(t) == Some(v) <==> DaySpelling(t, v)
  {
    if DayField(t) == Some(v) && |t| == 2 && IsDigit(t[0]) {
      assert t == [t[0], t[1]];
      assert v / 10 == DigitValue(t[0]) && v % 10 == DigitValue(t[1]);
    }
  }

  lemma MonthFieldIff(t: string, v: int)
    ensures MonthField(t) == Some(v) <==> MonthSpelling(t, v)
  {
    if MonthField(t) == Some(v) && |t| == 2 {
      assert t == [t[0], t[1]];
      assert v / 10 == DigitValue(t[0]) && v % 10 == DigitValue(t[1]);
    }
  }

  lemma YearFieldIff(t: string, v: int)
    ensures YearField(t) == Some(v) <==> 0 <= v <= 9999 && t == Pad4(v)
  {
    if YearField(t) == Some(v) {
      var a, b, c, d := DigitValue(t[0]), DigitValue(t[1]), DigitValue(t[2]), DigitValue(t[3]);
      FourDigits(a, b, c, d);
      assert t == [t[0], t[1], t[2], t[3]];
    }
    if 0 <= v <= 9999 && t == Pad4(v) {
      Recompose(v);
    }
  }

  lemma Recompose(v: int)
    requires 0 <= v <= 9999
    ensures 1000 * (v / 1000) + 100 * (v / 100 % 10) + 10 * (v / 10 % 10) + v % 10 == v
  {
    var a, r := v / 1000, v % 1000;
    var b, r' := r / 100, r % 100;
    var c, d := r' / 10, r' % 10;
    assert v == 1000 * a + 100 * b + 10 * c + d;
    FourDigits(a, b, c, d);
  }

  /** The four digits of a four-digit number are recovered by division. */
  lemma FourDigits(a: int, b: int, c: int, d: int)
    requires 0 <= a <= 9 && 0 <= b <= 9 && 0 <= c <= 9 && 0 <= d <= 9
    ensures var v := 1000 * a + 100 * b + 10 * c + d;
            v / 1000 == a && v / 100 % 10 == b && v / 10 % 10 == c && v % 10 == d
  {
    var v := 1000 * a + 100 * b + 10 * c + d;
    assert v / 1000 == a by {
      assert v == 1000 * a + (100 * b + 10 * c + d);
      Div1000(a, 100 * b + 10 * c + d);
    }
    assert v / 100 % 10 == b by {
      assert v == 100 * (10 * a + b) + (10 * c + d);
      Div100(10 * a + b, 10 * c + d);
      Div10(a, b);
    }
    assert v / 10 % 10 == c && v % 10 == d by {
      assert v == 10 * (100 * a + 10 * b + c) + d;
      Div10(100 * a + 10 * b + c, d);
      Div10(10 * a + b, c);
    }
  }

  lemma Div10(q: int, r: int)
    requires 0 <= r < 10
    ensures (10 * q + r) / 10 == q && (10 * q + r) % 10 == r
  {
  }

  lemma Div100(q: int, r: int)
    requires 0 <= r < 100
    ensures (100 * q + r) / 100 == q
  {
  }

  lemma Div1000(q: int, r: int)
    requires 0 <= r < 1000
    ensures (1000 * q + r) / 1000 == q
  {
  }

  /** `s` writes `d` as the day spelling `a`, a slash, the month spelling
      `b`, a slash and the four-digit year. */
  predicate Spells(s: string, d: Date, a: string, b: string) {
    && 0 <= d.year <= 9999
    && DaySpelling(a, d.day) && MonthSpelling(b, d.month) && s == a + "/" + b + "/" + Pad4(d.year)
  }

  /** What a successful parse was given: a real date, spelt field by field. */
  lemma ParseDateSound(s: string, d: Date)
    requires ParseDate(s) == Some(d)
    ensures ValidDate(d)
    ensures exists a, b :: Spells(s, d, a, b)
  {
    var a, b := SpellingOf(s, d);
  }

  /** The day and month spellings a successful parse read. */
  lemma SpellingOf(s: string, d: Date) returns (a: string, b: string)
    requires ParseDate(s) == Some(d)
    ensures Spells(s, d, a, b)
  {
    var i := Find(s, '/');
    var rest := s[i + 1..];
    var j := Find(rest, '/');
    var c := rest[j + 1..];
    a, b := s[..i], rest[..j];
    ParseDateFields(s, d);
    assert DaySpelling(a, d.day) by { DayFieldIff(a, d.day); }
    assert MonthSpelling(b, d.month) by { MonthFieldIff(b, d.month); }
    assert c == Pad4(d.year) by { YearFieldIff(c, d.year); }
    JoinAtSlashes(s, i, j);
  }

  /** A successful parse read its day, month and year from the text between
      the first two slashes. */
  lemma ParseDateFields(s: string, d: Date)
    requires ParseDate(s) == Some(d)
    ensures Find(s, '/') < |s|
    ensures Find(s[Find(s, '/') + 1..], '/') < |s[Find(s, '/') + 1..]|
    ensures DayField(s[..Find(s, '/')]) == Some(d.day)
    ensures MonthField(s[Find(s, '/') + 1..][..Find(s[Find(s, '/') + 1..], '/')]) == Some(d.month)
    ensures YearField(s[Find(s, '/') + 1..][Find(s[Find(s, '/') + 1..], '/') + 1..]) == Some(d.year)
  {
  }

  /** Text cut at two slashes is the parts joined by slashes. */
  lemma JoinAtSlashes(s: string, i: nat, j: nat)
    requires i < |s| && s[i] == '/' && j < |s[i + 1..]| && s[i + 1..][j] == '/'
    ensures s == s[..i] + "/" + s[i + 1..][..j] + "/" + s[i + 1..][j + 1..]
  {
    var rest := s[i + 1..];
    assert rest == rest[..j] + "/" + rest[j + 1..];
    assert s == s[..i] + "/" + rest;
  }


  /** Every spelling of a real date parses to it. */
  lemma ParseDateComplete(a: string, b: string, d: Date)
    requires ValidDate(d) && DaySpelling(a, d.day) && MonthSpelling(b, d.month)
    ensures ParseDate(a + "/" + b + "/" + Pad4(d.year)) == Some(d)
  {
    var c := Pad4(d.year);
    var s := a + "/" + b + "/" + c;
    SplitAtSlashes(a, b, c);
    DayFieldIff(a, d.day);
    MonthFieldIff(b, d.month);
    YearFieldIff(c, d.year);
    assert s[..|a|] == a;
    assert (b + "/" + c)[..|b|] == b;
    assert (b + "/" + c)[|b| + 1..] == c;
  }

  /** A text parses to `d` exactly when `d` is a real date and the text spells
      it as day, slash, month, slash, four-digit year in one of the spellings
      the format accepts. */
  lemma ParseDateIff(s: string, d: Date)
    ensures ParseDate(s) == Some(d) <==>
              ValidDate(d) && exists a, b :: Spells(s, d, a, b)
  {
    if ParseDate(s) == Some(d) {
      ParseDateSound(s, d);
    }
    if ValidDate(d) && exists a, b :: Spells(s, d, a, b) {
      var a, b :| Spells(s, d, a, b);
      ParseDateComplete(a, b, d);
    }
  }

  /** Splitting a text at its first two slashes recovers its slash-free fields. */
  lemma SplitAtSlashes(a: string, b: string, c: string)
    requires '/' !in a && '/' !in b
    ensures Find(a + "/" + b + "/" + c, '/') == |a|
    ensures (a + "/" + b + "/" + c)[|a| + 1..] == b + "/" + c
    ensures Find(b + "/" + c, '/') == |b|
  {
    var s := a + "/" + b + "/" + c;
    assert s == a + ['/'] + (b + "/" + c);
    FindAfter(a, '/', b + "/" + c);
    FindAfter(b, '/', c);
  }

  /** Find skips a prefix that lacks the character and stops at it. */
  lemma FindAfter(a: string, c: char, t: string)
    requires c !in a
    ensures Find(a + [c] + t, c) == |a|
  {
    var s := a + [c] + t;
    assert s[|a|] == c;
    assert s[..|a|] == a;
    assert s[..|a| + 1] == a + [c];
  }

  /** Writing a date with `strftime('%d/%m/%Y')` and parsing it back gives the
      same date. */
  lemma FormatThenParse(d: Date)
    requires ValidDate(d)
    ensures ParseDate(FormatDate(d)) == Some(d)
  {
    assert DaySpelling(Pad2(d.day), d.day);
    assert MonthSpelling(Pad2(d.month), d.month);
    assert Spells(FormatDate(d), d, Pad2(d.day), Pad2(d.month));
    ParseDateIff(FormatDate(d), d);
  }

  /** Worked examples: "15/03/2024" is 15 March 2024; "not-a-date",
      "31/02/2024" and "15-03-2024" are missing dates. */
  lemma ParseDateExample(good: string)
    requires good == "15/03/2024"
    ensures ParseDate(good) == Some(Date(2024, 3, 15))
  {
    var d := Date(2024, 3, 15);
    assert good == FormatDate(d);
    FormatThenParse(d);
  }

  /** Text without a slash is not a date: `errors='coerce'` gives a missing date. */
  lemma NoSlashExamples(word: string, dashes: string)
    requires word == "not-a-date" && dashes == "15-03-2024"
    ensures ParseDate(word) == None
    ensures ParseDate(dashes) == None
  {
    assert '/' !in word;
    assert Find(word, '/') == |word|;
    assert '/' !in dashes;
    assert Find(dashes, '/') == |dashes|;
  }

  /** The fields may be well spelt and the date still not exist. */
  lemma NoSuchDayExample(feb31: string)
    requires feb31 == "31/02/2024"
    ensures ParseDate(feb31) == None
  {
    SplitAtSlashes("31", "02", "2024");
    assert feb31 == "31" + "/" + "02" + "/" + "2024";
    assert DaysInMonth(2024, 2) == 29;
  }


  /** Ordering key of a possibly missing date: later dates have larger keys
      and a missing date has the smallest key of all. */
  function DateKey(d: Option<Date>): int {
    match d
    case None => 0
    case Some(x) => x.year * 10000 + x.month * 100 + x.day
  }

  /** Keys order valid dates as the calendar does, below every date a missing one. */
  lemma DateKeyOrder(a: Date, b: Date)
    requires ValidDate(a) && ValidDate(b)
    ensures DateKey(Some(a)) > DateKey(Some(b)) <==> After(a, b)
    ensures DateKey(Some(a)) == DateKey(Some(b)) <==> a == b
    ensures DateKey(None) < DateKey(Some(a))
  {
  }
}
