# Fund CSV import and fund list, modelled in Dafny

This project models two parts of a small Django fund-management application.

**The CSV upload view.** It reads the rows of an uploaded file. For each row it:
- resolves the name, strategy, AUM (assets under management) and inception-date cells through fixed, ordered lists of header spellings;
- skips the row when the name or the strategy is missing;
- turns the AUM text into a decimal once the commas are removed;
- tries four date formats in order;
- creates a fund, and counts the creations that succeed.

An AUM that is not a decimal raises `decimal.InvalidOperation`. The handler around the AUM parse catches only `ValueError` and `TypeError`, so that exception ends the whole upload. The funds created before that row stay.

**The fund list view.** It filters the funds by an optional strategy, then shows how many funds remain and the total of their AUM.

Modules:

- `Text`: Python's `str.strip()` (exactly the characters `str.isspace()` accepts), `str.replace(',', '')`, locating a separator, and ASCII digit strings.
- `Decimals`: a decimal as sign, coefficient and exponent, as Python keeps it. Also a modelled grammar for the plain numerals `Decimal(str)` accepts, and the numeral a decimal is written as.
- `Dates`: calendar dates and the four `strptime` formats `%m/%d/%Y`, `%m-%d-%Y`, `%Y-%m-%d` and `%d/%m/%Y`. Each format uses the token grammar of CPython's `_strptime`:
  - `%m`: one or two digits, 1 to 12;
  - `%d`: one or two digits, 1 to 31, or a space then a digit from 1 to 9;
  - `%Y`: four digits.

  Then come the first-match fallback and the date of a row.
- `Headers`: the `row.get(a) or row.get(b) or …` chains.
- `Funds`: the fund record and the fund table. The table is a class whose sequence of funds grows by one per accepted `create`.
- `Listing`: the strategy filter, the count, and the `Sum('aum') or Decimal('0')` total.
- `Importer`: the decision for each row (`PlanRow`); the loop as a function over the rows (`Replay`); an independent front-to-back description of the same loop (`Admitted`, `FirstAbort`); and the imperative loop itself (`UploadCsv`, `ImportRow`, `ParseInceptionDate`), proved against them.

Whether the database accepts a fund is not computed. It is the parameter `accepts`: `accepts(i)` says whether the `create` of data row `i` succeeds.

## Model

| member | source | states |
|---|---|---|
| Headers.Resolve | funds/views.py:55-58 | the chain yields a value exactly when some listed header holds a non-empty cell, and that value is never empty |
| Headers.ResolvePicksFirstPresent | funds/views.py:55-58 | the value comes from the first listed header whose cell is present and non-empty; absent and empty cells before it fall through |
| Headers.ResolveReadsOnlyListed | funds/views.py:55-58 | cells under headers outside the list do not affect the result |
| Headers.MarkedNameHeaderRead | funds/views.py:55 | a `Name` column that kept its byte-order mark is read when `Name` itself is missing or empty |
| Text.Strip | funds/views.py:67 | the stripped text is no longer than the input, and neither its first nor its last character is whitespace |
| Text.StripSlice | funds/views.py:67 | the stripped text is one contiguous slice of the input, and everything outside that slice is whitespace |
| Text.StripEmptyIffAllSpace | funds/views.py:67 | a value strips to the empty string exactly when every character is whitespace |
| Text.StripKeeps | funds/views.py:79 | a non-whitespace character of the input survives stripping |
| Text.StripUnchanged | funds/views.py:95-96 | text that neither starts nor ends with whitespace is left unchanged |
| Text.StripIdempotent | funds/views.py:95-96 | stripping twice is stripping once |
| Text.RemoveCommas | funds/views.py:69 | the result has no comma and is no longer than the input |
| Text.RemoveCommasKeepsOthers | funds/views.py:69 | every character other than a comma occurs as often as in the input |
| Text.RemoveCommasAppend | funds/views.py:69 | comma removal distributes over concatenation |
| Text.RemoveCommasAround | funds/views.py:69 | a thousands separator between two parts disappears |
| Text.RemoveCommasUnchanged | funds/views.py:69 | text without commas is left unchanged |
| Text.IndexOf | funds/views.py:82 | the result is the position of the first occurrence of the character, or the length when it does not occur |
| Text.Digits | funds/views.py:69 | the digit string of a number reads back as that number |
| Decimals.Numeral | funds/views.py:69 | integer and fraction digits form a decimal exactly when both are digit strings and at least one is non-empty; the sign and the number of places are kept |
| Decimals.Render | funds/views.py:69 | in the numeral of a decimal, the first character is a minus sign or a digit, and the last is a digit |
| Decimals.ParseRender | funds/views.py:69 | `Decimal(str)` reads back exactly the decimal a numeral writes: sign, coefficient and places |
| Decimals.ParseRenderUnsigned | funds/views.py:69 | the unsigned numeral of a coefficient with a given number of places reads back as that coefficient and those places |
| Decimals.ParseIgnoresSurroundingSpace | funds/views.py:69 | surrounding whitespace does not change what `Decimal` reads |
| Decimals.ParseDecimal | funds/views.py:69 | `Decimal(str)` in the modelled grammar: surrounding whitespace stripped, an optional sign, digits with at most one point; a definition without a contract of its own, whose properties the other `Decimals` lemmas state |
| Decimals.DecimalWithStrayChar | funds/views.py:69 | text holding an ASCII character that is not whitespace, a digit, a letter, a point, a sign or an underscore is not a decimal, in the modelled grammar and in Python's |
| Decimals.EmptyIsNotDecimal | funds/views.py:69 | the empty text is not a decimal |
| Dates.IsMonthToken | funds/views.py:82 | a `%m` token is one or two characters and denotes 1 to 12 |
| Dates.IsDayToken | funds/views.py:82 | a `%d` token is one or two characters and denotes 1 to 31 |
| Dates.IsYearToken | funds/views.py:82 | a `%Y` token is four digits and denotes at most 9999 |
| Dates.DaysInMonth | funds/views.py:82 | every month has 28 to 31 days, and 29 exactly for February of a leap year |
| Dates.Strptime | funds/views.py:82 | a format only ever yields a valid calendar date |
| Dates.FirstMatch | funds/views.py:80-85 | the first format that parses gives the date, and that date is valid |
| Dates.FirstMatchPicksFirst | funds/views.py:80-85 | a format that parses, preceded only by formats that do not, decides the result |
| Dates.FirstMatchNoneIff | funds/views.py:80-87 | no date results exactly when every format fails |
| Dates.InceptionDate | funds/views.py:75-90 | a missing value gives no date, and any date given is valid |
| Dates.InceptionDateInOrder | funds/views.py:76-85 | for any cell that is not blank, its stripped value is tried as m/d/Y, then m-d-Y, then Y-m-d, then d/m/Y, and the first that parses gives the date |
| Dates.InceptionDateIgnoresSurroundingSpace | funds/views.py:79 | whitespace around a date is ignored: a cell reads as its stripped value |
| Dates.BlankDateIsAbsent | funds/views.py:75-76 | a whitespace-only date gives no date |
| Dates.UnseparatedDateIsAbsent | funds/views.py:80-87 | a value with neither a slash nor a dash gives no date |
| Dates.Place | funds/views.py:80 | the order in which a format writes the fields is undone by the order in which it reads them |
| Dates.Pad2Value | funds/views.py:82 | a two-digit zero-padded number reads back as that number |
| Dates.Pad4Value | funds/views.py:82 | a four-digit zero-padded year reads back as that year |
| Dates.PadTokens | funds/views.py:82 | zero-padded fields of a valid date match the `%Y`, `%m` and `%d` token grammars |
| Dates.FieldsJoin | funds/views.py:82 | a value made of three fields joined by a separator splits back into those fields |
| Dates.FieldsWithoutSeparator | funds/views.py:82 | a value without the separator of a format does not split into fields |
| Dates.StrptimeFormatDate | funds/views.py:82 | every format reads back the date it writes |
| Dates.FormatDateStripped | funds/views.py:79 | a written date is non-empty and has no surrounding whitespace |
| Dates.MonthFirstDateRead | funds/views.py:80-85 | a date written m/d/Y is read by the first format, so "01/02/2020" is 2 January 2020 |
| Dates.IsoDateRead | funds/views.py:80-85 | a date written Y-m-d fails both month-first formats and is read correctly by the third |
| Dates.DayFirstDateReadWhenDayAbove12 | funds/views.py:80-85 | a date written d/m/Y with a day above 12 is read correctly, and only by the last format |
| Dates.NotMonthToken | funds/views.py:82 | two digits above 12 are not a month |
| Dates.DayFirstDateSwappedWhenDayAtMost12 | funds/views.py:80-85 | a date written d/m/Y with a day of at most 12 is read by the first format, with day and month swapped |
| Funds.FundStore.constructor | funds/models.py:11-14 | a new fund table is empty |
| Funds.FundStore.Create | funds/views.py:94-99 | an accepted fund is appended to the table and nothing else changes; a rejected one leaves the table as it was |
| Importer.ParseAum | funds/views.py:66-72 | a missing amount gives no amount; the full case split is Importer.ParseAumCases |
| Importer.PlanRow | funds/views.py:55-99 | the decision for one row: skip, raise, or create a fund. It is a definition without a contract of its own, because its contents are stated by Importer.RowSkippedIff, Importer.RowRaisesIff and Importer.InsertedFund |
| Importer.ParseAumCases | funds/views.py:66-72 | a missing or blank amount gives no amount; the amount raises exactly when its comma-free text is not a decimal; otherwise it is that decimal |
| Importer.BlankAumIsAbsent | funds/views.py:67 | a whitespace-only amount gives no amount |
| Importer.AumIgnoresCommas | funds/views.py:69 | commas anywhere in the amount are ignored, so "1,234,567.89" reads as 1234567.89 |
| Importer.AumWithStrayCharRaises | funds/views.py:68-72 | an amount holding an ASCII character that no numeral can hold and that is not a comma, such as `/` or `%`, raises the uncaught exception |
| Importer.NotApplicableAumRaises | funds/views.py:68-72 | "N/A" as the amount raises; it does not leave the amount empty |
| Importer.OnlyCommasAumRaises | funds/views.py:67-72 | an amount of commas only passes the blank test and then raises |
| Importer.RowSkippedIff | funds/views.py:61-63 | a row is skipped exactly when no name header or no strategy header holds a non-empty cell |
| Importer.RowRaisesIff | funds/views.py:61-72 | a row raises exactly when it is not skipped and its amount is present, not blank, and not a decimal without its commas; the amount of a skipped row is never read |
| Importer.InsertedFund | funds/views.py:66-99 | the fund of a row has the stripped name and strategy, the amount of a non-blank cell, and the first date any format reads |
| Importer.BlankNameStoredEmpty | funds/views.py:61-63 | the required check looks at the unstripped value, so a whitespace-only name passes and is stored as "" |
| Importer.PlansAt | funds/views.py:51-58 | the plan of each row depends on that row alone |
| Importer.Step | funds/views.py:93-103 | one turn of the loop: once a row has raised nothing changes, a skipped row changes nothing, a raising row ends the loop, and a fund is appended only when the database accepts its create. It is a definition without a contract of its own; Importer.AdmittedSnoc and Importer.ReplayAfterAbort state its effect |
| Importer.Replay | funds/views.py:51-103 | the loop creates at most one fund per row, and a row that ended the upload is one that raises |
| Importer.FirstAbort | funds/views.py:68-72 | the result is the first row that raises, or no row when none does |
| Importer.ReplayIsAdmitted | funds/views.py:51-103 | the loop creates exactly the accepted funds of the rows before the first row that raises, in row order, and stops exactly at that row |
| Importer.FirstAbortSnoc | funds/views.py:51-72 | a row added at the end changes the first raising row only when no earlier row raised |
| Importer.AdmittedSnoc | funds/views.py:93-103 | before any raise, a row added at the end adds its fund exactly when the database accepts it; a rejected create does not stop the loop |
| Importer.AdmittedSnocAfterAbort | funds/views.py:68-72 | rows after a raise add nothing |
| Importer.AdmittedFromRow | funds/views.py:93-100 | every created fund is the fund of a row before the first raise that is not skipped and whose create the database accepted |
| Importer.AdmittedStopsAtAbort | funds/views.py:68-72 | the rows after the first raise are never created |
| Importer.UploadAbortsAtFirstBadAmount | funds/views.py:68-72 | the upload ends at the first raising row; the funds of the accepted rows before it stay, and no count is reported |
| Importer.UploadCountBound | funds/views.py:50-100 | the reported count never exceeds the number of data rows |
| Importer.ReplayAfterAbort | funds/views.py:68-72 | once a row has raised, further rows change nothing |
| Importer.ParseInceptionDate | funds/views.py:75-90 | the loop over the formats, which stops at the first that parses, computes the date of the row |
| Importer.ImportRow | funds/views.py:52-103 | one turn of the loop raises exactly for a raising row; it creates exactly for a row planned for creation that the database accepts; it appends that row's fund and changes nothing else |
| Importer.UploadCsv | funds/views.py:50-103 | the upload appends exactly the funds the loop creates, and reports their number, or the row that raised |
| Listing.WithStrategy | funds/views.py:15-16 | the filtered list is no longer than the table, and every fund in it has the strategy |
| Listing.SelectFunds | funds/views.py:13-18 | an empty filter shows every fund; a non-empty one shows only funds of that strategy |
| Listing.WithStrategyKeepsExactly | funds/views.py:15-16 | the filter keeps every fund of the strategy as often as it occurs, and no other fund |
| Listing.WithStrategyAppend | funds/views.py:15-16 | filtering a concatenation filters each part |
| Listing.SelectFundsIdempotent | funds/views.py:13-18 | filtering twice by the same strategy is filtering once |
| Listing.WithStrategyUnchanged | funds/tests.py:39-43 | a list whose funds all have the strategy passes the filter whole |
| Listing.TotalAum | funds/views.py:22 | the total of the amounts, with absent amounts counting 0. It is a definition without a contract of its own; the three lemmas below state its properties |
| Listing.TotalAumAppend | funds/views.py:22 | the total of a concatenation is the sum of the totals |
| Listing.TotalAumWithoutAmounts | funds/views.py:22 | funds without an amount add nothing, and with no amounts at all the total is 0 |
| Listing.TotalAumNonNegative | funds/views.py:22 | with no negative amount the total is not negative |
| Listing.Summarize | funds/views.py:20-22 | the count shown is never more than the number of funds |
| Listing.SummarizeUnfiltered | funds/views.py:13-22 | an empty filter counts and totals every fund |
| Listing.SummarizeNoMatch | funds/views.py:15-22 | a filter that no fund matches gives a count of 0 and a total of 0 |

## Left out

- The CSV file is not decoded or tokenised. Rows arrive as maps from header to cell text, as `csv.DictReader` yields them after UTF-8-with-BOM decoding. A short row's missing cells are modelled as absent keys.
- The database is a sequence of funds plus a verdict for each `create`. Queries, ordering by name, and the list of distinct strategies for the drop-down (funds/views.py:25) are not modelled.
- Whether the database enforces `max_length`, `choices` and `max_digits` depends on the backend and is not modelled. The rounding of amounts to two decimal places on storage is not modelled either.
- `Decimal(str)` is modelled for plain numerals only: an optional sign, then digits with at most one point. Exponents, `NaN`, `Infinity`, underscores and non-ASCII digits are not modelled. Such an amount is treated as raising.
- `strptime` is modelled for ASCII digits only. A date it rejects gives no date, and the row is still created.
- The `print` debug output, form validation, request handling, template rendering, and the JSON API (funds/views.py:124-146) are not modelled.
- Importer.NotApplicableAumRaises follows the code. An amount of "N/A" raises the uncaught `InvalidOperation` and ends the upload. One would expect the amount to be left empty instead.
- Importer.Replay: the transaction behaviour after the exception is taken to be Django's default autocommit. The funds created before the raising row are kept.
