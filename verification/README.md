# FiscalDeMaringa ingestion core in Dafny

FiscalDeMaringa is a dashboard of the municipality of Maringá's paid
liquidations (*liquidações pagas*). It reads the municipal CSV export and turns
it into a table. This project models the pure logic of that step and proves
properties about it:

- **Redaction** models `limpar_nome_fornecedor`. It deletes taxpayer numbers
  from a supplier's name: the CNPJ shape, the CPF shape, the masked
  `****digits****` form, and the literal `" - "`. Each is one left-to-right
  pass that deletes non-overlapping matches. Then `strip()` runs, with a
  fallback to `"N/A"`.
- **Columns** models the column-discovery loop. It is an ordered,
  first-match-wins classification of headers into five roles: data,
  fornecedor, valor, tipo_licitacao and empenho.
- **Dates** models `pd.to_datetime(format='%d/%m/%Y', errors='coerce')`.
- **Currency** models the Brazilian amount conversion. It deletes every `.`,
  turns every `,` into `.`, then applies `float()`. Amounts are exact
  decimals: an integer mantissa and a decimal scale.
- **Sorting** is a descending sort by key that promises no order among ties.
- **Pipeline** models `processar_liquidacoes_pagas` from a parsed table to
  the sorted records. It returns `None` on exactly the inputs that make the
  Python function raise, up to the differences listed under "## Left out".
- **Summary** models the top-10 supplier report: group by cleaned name, sum,
  sort descending, keep at most ten.
- **Display** models the separator swap of `formatar_valor`.
- **Text** holds the string primitives: Python's `\d`, `isspace()`,
  `strip()`, `str.replace` and substring search.
- **Wrappers** defines `Option`.

Python's `\d` and `isspace()` are modelled on Latin-1, the file's encoding. Its
only digits are ASCII. Its whitespace, which `strip()` removes, is TAB to CR,
the four separators U+001C to U+001F, space, U+0085 and U+00A0. `float()` trims
a narrower set: TAB to CR, space, U+0085 and U+00A0, but not U+001C to U+001F.

## Model

| member | source | states |
|---|---|---|
| Redaction.CleanSupplier | backend/coletor.py:63-73 | The cleaned name is never empty. A missing name gives exactly "N/A". Any other result has no leading or trailing whitespace. |
| Redaction.CleanKeepsNameChars | backend/coletor.py:67-73 | If a name has any character that is not a digit, whitespace or pattern punctuation, cleaning keeps all of those characters, in order. Only digits, whitespace and `. / - *` can be deleted. |
| Redaction.CleanMatchFree | backend/coletor.py:63-73 | A name in which no CNPJ, CPF, masked number or `" - "` starts anywhere is only stripped, or becomes "N/A" when nothing is left. Plain numbers and inner whitespace stay. |
| Redaction.CleanWithoutPatternChars | backend/coletor.py:63-73 | A name with no `.`, `*` or `-` and no whitespace at its ends is cleaned to itself. |
| Redaction.PlainNumberKept | backend/coletor.py:63-73 | "ACME 2000 LTDA" is cleaned to itself: its number and inner spaces stay. |
| Redaction.Redact | backend/coletor.py:67-71 | The three `re.sub` passes and the `" - "` replacement never lengthen the text, and they keep every name character in order. |
| Redaction.Sub | backend/coletor.py:67-69 | One `re.sub(pattern, '', s)` pass never lengthens the text. When a match starts at the first character, the result is shorter by at least that match's length. When no match starts at the first character, that character is kept as the first of the result. |
| Redaction.SubKeepsNameChars | backend/coletor.py:67-69 | One pass of a pattern whose literals are all redactable deletes only redactable characters. |
| Redaction.MatchLength | backend/coletor.py:67-69 | A match fits in the text and covers only redactable characters. A fixed-shape pattern (CNPJ, CPF, `" - "`) matches exactly when the text starts with one character fitting each position of the pattern, and the match then has the pattern's length. A masked match is at least nine characters: `****`, digits only, `****`. |
| Redaction.MaskedMatches | backend/coletor.py:69 | `****`, any non-empty run of digits, `****` is matched in full at the start of any text, however that text goes on. |
| Redaction.CleanNameThenCnpj | backend/coletor.py:63-73 | A name with no digit, `*` or `-` and no whitespace at its ends, followed by `" - "` and any CNPJ, is cleaned to the name alone. |
| Redaction.SeparatorSuffix | backend/coletor.py:71 | Replacing `" - "` in a name without `-` followed by `" - "` gives the name. |
| Redaction.SubUnchangedIffMatchFree | backend/coletor.py:67-71 | A pass leaves a text unchanged exactly when no match starts at any position. |
| Redaction.SubPassesOver | backend/coletor.py:67-71 | The scan runs left to right. A stretch of characters that cannot start a match is copied, and the pass continues after it. |
| Redaction.PassWithoutLiteral | backend/coletor.py:67-69 | A pass is the identity on text lacking one of the pattern's literal characters. |
| Redaction.FirstPassesSkip | backend/coletor.py:67-69 | Text with no `.` and no `*` goes through the CNPJ, CPF and masked passes unchanged. |
| Redaction.CleanCnpjExample | backend/coletor.py:63-73 | "ACME LTDA - 12.345.678/0001-99" is cleaned to "ACME LTDA". |
| Redaction.CnpjPassExample | backend/coletor.py:67 | The CNPJ pass deletes the trailing CNPJ of that name and nothing else. |
| Redaction.SeparatorPassExample | backend/coletor.py:71 | The `" - "` replacement turns "ACME LTDA - " into "ACME LTDA". |
| Redaction.CleanMaskedExample | backend/coletor.py:63-73 | "****12345****" is deleted whole, so the name falls back to "N/A". |
| Redaction.MaskedPassExample | backend/coletor.py:69 | The masked pattern takes the whole digit run between the two `****`. |
| Redaction.CleanNotIdempotent | backend/coletor.py:71 | Cleaning is not idempotent. "A  - - B" cleans to "A - B", and that cleans to "AB". |
| Columns.Classify | backend/coletor.py:19-34 | A header's role is the role of a rule it satisfies, and it satisfies no earlier rule. A header has no role exactly when it satisfies no rule. |
| Columns.ClassifyFirstMatchWins | backend/coletor.py:19-34 | A header gets a role exactly when that role's rule holds and no earlier rule holds. A header is dropped exactly when no rule holds. |
| Columns.Discover | backend/coletor.py:19-37 | Every kept column is a header whose first matching rule gives its role. Every classified header is kept. Kept columns stay in header order. |
| Columns.WithRole | backend/coletor.py:36-37 | The columns renamed to a role are exactly the discovered columns with that role, in header order. |
| Columns.WithRoleIncreasing | backend/coletor.py:19-37 | The header positions renamed to one role strictly increase, so none is repeated. |
| Columns.WithRoleColumns | backend/coletor.py:19-37 | The columns renamed to a role are, in increasing order, exactly the header positions the rules give that role. |
| Columns.WithRoleCount | backend/coletor.py:19-37 | The number of columns renamed to a role equals the number of headers that the rules give that role. |
| Columns.LiquidationDateIsData | backend/coletor.py:20-22 | "Data da Liquidação" is the date column. |
| Columns.PaymentDateIsDropped | backend/coletor.py:19-34 | "Data de Pagamento" matches no rule and is dropped. |
| Columns.ExactFornecedorHeader | backend/coletor.py:23-25 | The exact header "Fornecedor" is the supplier column. |
| Columns.ExactValorHeader | backend/coletor.py:26-28 | The exact header "Valor" is the value column. |
| Columns.SupplierBeatsValue | backend/coletor.py:23-28 | "Valor por Fornecedor" is the supplier column, because the supplier rule comes first. |
| Pipeline.HeaderIndex | backend/coletor.py:14 | The position of the exact header `name` is absent exactly when no header is spelt `name`. Otherwise it points at such a header. |
| Pipeline.DropMissing | backend/coletor.py:14 | `dropna` never adds lines, and every line it keeps has both its Fornecedor and its Valor cells. |
| Pipeline.DropMissingIff | backend/coletor.py:14 | A line survives `dropna` exactly when it is an input line with both its Fornecedor and its Valor cells present. |
| Pipeline.DropMissingCount | backend/coletor.py:14 | `dropna` keeps a line as many times as it occurs in the input when both cells are present, and drops every copy otherwise. |
| Pipeline.DropMissingComplete | backend/coletor.py:14 | A table whose lines all have both cells loses no line. |
| Pipeline.FindLayout | backend/coletor.py:19-43 | A found layout points the date, supplier and value roles at headers the rules classify that way. Its type and commitment lists hold, in header order, exactly the header positions the rules classify as type and as commitment. |
| Pipeline.FindLayoutIff | backend/coletor.py:19-43 | A layout exists exactly when, for each of the date, supplier and value roles, exactly one header position is classified with that role. The count is of header positions, not of discovered columns. |
| Pipeline.LayoutColumnsUnique | backend/coletor.py:36-43 | Once a layout exists, no other header has the date, supplier or value role. |
| Pipeline.ExactColumnsUsed | backend/coletor.py:14-28 | When a layout exists, the exact "Fornecedor" and "Valor" headers used by `dropna` are the discovered supplier and value columns. |
| Pipeline.ToRecord | backend/coletor.py:39-43 | A record's date is its date cell parsed, a real date or none. Its supplier is its supplier cell, and its cleaned name is that cell cleaned, never empty. Its amount is the converted value. Its type and commitment are the cells of the type and commitment columns, zero or more of each. |
| Pipeline.ConvertAll | backend/coletor.py:39-43 | Conversion succeeds exactly when every line's value cell converts. It then gives one record per line, in order. Each record's amount is its line's converted value cell. Its supplier, cleaned name, date, type and commitment come from that same line. |
| Pipeline.ConvertFailsIff | backend/coletor.py:14-43 | With a layout, conversion of the kept lines fails exactly when some kept line's exact "Valor" cell does not convert. |
| Pipeline.Process | backend/coletor.py:14-61 | A result means both exact headers exist and a layout was found. It has one record per kept line and is sorted by date key, latest first. |
| Pipeline.KeptValues | backend/coletor.py:14-43 | Every kept line has a supplier cell, and its amount converts exactly when its exact "Valor" cell does. |
| Pipeline.ProcessFailsIff | backend/coletor.py:14-61 | The result is `None` exactly when one of these holds: an exact "Fornecedor" or "Valor" header is missing; the date, supplier or value role is not claimed by exactly one header; or some line kept by `dropna` has an amount that does not convert. |
| Pipeline.ProcessSucceeds | backend/coletor.py:14-45 | A result is a rearrangement of the converted kept lines, one record per kept line. Each record comes from a kept line: its supplier is that line's Fornecedor cell, its cleaned name is that cell cleaned, its amount is that line's Valor cell converted, its date is that line's date cell parsed, and its type and commitment are that line's cells. Dated records come before undated ones. Dates never increase. |
| Pipeline.DateOrder | backend/coletor.py:45 | Sorting by the date key puts later dates first and missing dates last. |
| Dates.ParseDate | backend/coletor.py:39 | A parsed date exists in the calendar and fits a nanosecond Timestamp. |
| Dates.ParseDateCell | backend/coletor.py:39 | A missing cell is a missing date. A parsed cell is a real date. |
| Dates.ParseDateIff | backend/coletor.py:39 | A text parses to `d` exactly when `d` is a representable date and the text spells it as day/month/four-digit year. The day and month may use any spelling `%d` and `%m` accept. |
| Dates.ParseDateSound | backend/coletor.py:39 | A successful parse read an accepted day spelling, a slash, an accepted month spelling, a slash and four year digits. |
| Dates.ParseDateComplete | backend/coletor.py:39 | Every accepted spelling of a representable date parses to it. |
| Dates.DayFieldIff | backend/coletor.py:39 | The `%d` field accepts exactly the spellings CPython's pattern for it accepts: two digits from 01 to 31, one digit from 1 to 9, or a space and one digit from 1 to 9. |
| Dates.MonthFieldIff | backend/coletor.py:39 | The `%m` field accepts exactly two digits from 01 to 12, or one digit from 1 to 9. |
| Dates.YearFieldIff | backend/coletor.py:39 | The `%Y` field accepts exactly four digits. |
| Dates.FormatThenParse | backend/coletor.py:39 | Writing a date as DD/MM/YYYY and parsing it gives the same date. |
| Dates.ParseDateExample | backend/coletor.py:39 | "15/03/2024" is 15 March 2024. |
| Dates.NoSlashExamples | backend/coletor.py:39 | "not-a-date" and "15-03-2024" become missing dates, not errors. |
| Dates.NoSuchDayExample | backend/coletor.py:39 | "31/02/2024" is well spelt but is a missing date. |
| Dates.DateKeyOrder | backend/coletor.py:45 | The sort key orders real dates as the calendar does, and a missing date below all of them. |
| Currency.ParseUnsigned | backend/coletor.py:43 | An unsigned body parses exactly when it is digits with at most one `.` and at least one digit. The scale is the number of digits after the point, and the magnitude is the value of its digits with the point deleted. |
| Currency.ParseNumber | backend/coletor.py:43 | `float()` accepts a text exactly when, after trimming `float()`'s whitespace and one optional sign, it is such a body. The magnitude is the value of the body's digits with the point deleted. The scale is the count of fraction digits. A non-zero result is negative exactly when the sign was `-`. |
| Currency.ShortSpellings | backend/coletor.py:43 | `float()` reads ".5" as 0.5, "5." as 5 and "+5" as 5. These are the texts ",5", "5," and "+5" become after the replacements. |
| Currency.ParseCurrency | backend/coletor.py:43 | A cell converts exactly when its text, after the point deletion and comma replacement, is a number spelling `float()` accepts. |
| Currency.FloatSpaceExamples | backend/coletor.py:43 | "\t1" and "1" followed by U+00A0 convert to 1, but U+001C followed by "1" does not convert. |
| Currency.BrazilianToPlain | backend/coletor.py:43 | After the two replacements no comma is left, and the text is no longer. |
| Currency.BrazilianToPlainText | backend/coletor.py:43 | Amounts written in Brazilian notation become the plain `float()` spelling of the same decimal. |
| Currency.GroupThenDelete | backend/coletor.py:43 | Deleting the thousands points of grouped digits gives back the digits. |
| Currency.PlainTextParses | backend/coletor.py:43 | The parser reads the plain spelling of any decimal back as that decimal. |
| Currency.BrazilianRoundTrip | backend/coletor.py:43 | Every amount written in Brazilian notation converts back to that exact amount. |
| Currency.ParseCurrencyExample | backend/coletor.py:43 | "1.234,56" converts to 1234.56. |
| Currency.ConvertExample | backend/coletor.py:43 | "1.234,56" becomes "1234.56" before `float()`. |
| Currency.ParseCurrencyTwoCommas | backend/coletor.py:43 | "1,2,3" becomes "1.2.3", which is not a number. |
| Sorting.SortDesc | backend/coletor.py:45 | The sort keeps every element the same number of times, and keys never increase. |
| Sorting.SortedKeysUnique | backend/coletor.py:45 | Any two descending sorts of the same elements agree key by key. Only ties may differ. |
| Summary.Group | backend/coletor.py:85 | The groups have distinct names, and their names are exactly the records' cleaned names. |
| Summary.AddToSpec | backend/coletor.py:85 | Adding an amount raises only its supplier's total, by that amount. It opens the supplier when new and keeps suppliers unique. |
| Summary.GroupSpec | backend/coletor.py:85 | Grouping lists each cleaned name of the records once, with the sum of that name's amounts. |
| Summary.GroupTotals | backend/coletor.py:85 | Each group is one of the records' names with its reference total. There are as many groups as distinct names. |
| Summary.TopSuppliers | backend/coletor.py:85 | The report has at most ten entries, and totals never increase. |
| Summary.TopSuppliersSpec | backend/coletor.py:85 | The report lists min(10, number of names) distinct suppliers. Each has its exact total, and totals never increase. No left-out supplier has more than a listed one. |
| Display.SwapSeparators | backend/app_streamlit.py:27 | The swap keeps the length. |
| Display.SwapSeparatorsPointwise | backend/app_streamlit.py:27 | Each character is swapped on its own. A `,` becomes `.`, a `.` becomes `,`, a literal `X` becomes `.`, and anything else stays. |
| Display.SwapConcat | backend/app_streamlit.py:27 | The swap distributes over concatenation. |
| Display.SwapUntouched | backend/app_streamlit.py:27 | Text without `,`, `.` or `X` is unchanged. |
| Display.SwapInvolution | backend/app_streamlit.py:27 | On text without `X`, swapping twice gives the original text. |
| Display.PlaceholderCollides | backend/app_streamlit.py:27 | A literal `X` is not restored: "X" swapped twice is ",". |
| Display.GroupSwap | backend/app_streamlit.py:27 | English digit grouping with `,` becomes Brazilian grouping with `.`. |
| Display.FormatValue | backend/app_streamlit.py:26-27 | The display is "R$ " followed by the amount in Brazilian notation. Converting the text after "R$ " back gives the amount. |
| Display.SwapEnglish | backend/app_streamlit.py:27 | Swapping the separators of "R$ " and an amount in English notation gives "R$ " and the same amount in Brazilian notation. |
| Display.SwapExample | backend/app_streamlit.py:27 | "R$ 1,234.56" is shown as "R$ 1.234,56". |
| Text.Trim | backend/coletor.py:71 | Trimming by a whitespace class (`strip()`'s, or the narrower one `float()` uses) gives a slice of the input with only whitespace outside it. The result is empty exactly when the input is all whitespace, and otherwise it has no whitespace at either end. |
| Text.Strip | backend/coletor.py:71 | `strip()` gives a slice of the input with only whitespace outside it. The result is empty exactly when the input is all whitespace, and otherwise it has no whitespace at either end. It keeps every non-space character. |
| Text.StripKeepsInnerSpace | backend/coletor.py:71 | `strip()` keeps whitespace inside the text: "a b" stays "a b". |
| Text.ReplaceChar | backend/coletor.py:43 | `str.replace` of one character keeps the length. It changes exactly the positions holding the old character. |

## Left out

- Reading the CSV (`read_csv` with `;`, `skiprows=3`, Latin-1) is left out. The model starts from a header list and lines of optional cells, where a missing cell is pandas' NaN.
- pandas' dtype inference is left out for every column. The model treats every present cell as text. A Valor column pandas reads as numbers (for example "1.5" read as 1.5) would go through `str()` before the replacements. A Fornecedor column read as numbers would make `re.sub` raise `TypeError`, so Python would return `None` where the model cleans the name. Neither is modelled.
- pandas renames repeated header names (`Valor.1`). This is not modelled: headers are taken as given.
- The `print` diagnostics and the `silencioso` flag are left out. So is verbose mode's `strftime` on the earliest and latest dates, which raises on NaT and would turn a success into `None`; it belongs to logging.
- `total_gasto` and the report's per-type and per-month groupings are not modelled. They are presentation only, and the month bucketing relies on pandas Period internals.
- Sorting.SortDesc: tie order is not modelled. pandas' default sort is not stable, so only a sorted rearrangement is promised. `SortedKeysUnique` shows that keys are still determined.
- Currency.ParseNumber: exponents, `inf`, `nan` and digit-grouping underscores, which `float()` also accepts, are not modelled.
- Summary.GroupSpec: totals are exact sums of exact decimals. Python sums binary floats, whose rounding is not modelled.
- Display.FormatValue: takes the amount as a whole number of cents, so `:,.2f` rounding of a float is not modelled. Only the separator swap and the digit grouping are.
- Python's `\d` and `isspace()` are modelled on Latin-1 only, the file's encoding. The wider Unicode classes cannot occur in the decoded text.
- The Streamlit and Plotly interface, `locale.setlocale` and `main` are left out.
- backend/database.py holds only comments and is not part of this model.

Cleaning is not idempotent (`CleanNotIdempotent`). The top-supplier sort promises no order among equal totals.
