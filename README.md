# CompanyDataService core, modelled in Dafny

`CompanyDataService` is a small lookup service for a table of company
records. On the first request it reads a comma-separated data file and turns
each line into a `CompanyRecord`. It then answers two questions: which
company matches a text (by ticker or by name), and which company has a given
id. All of its logic is in `Program.cs`. This project models that logic and
proves properties about the model:

- `csv.dfy` (`Csv`): `ParseCsvLine`, the quote-toggling line splitter, as an
  imperative loop proved against a fold of its own step function.
- `numbers.dfy` (`Numbers`): `int.Parse` and `decimal.Parse` as partial
  functions. An `int` must be a digit string worth at most 2^31 - 1. A
  `decimal` is kept exactly as a mantissa and a scale, as C# does.
- `records.dfy` (`Records`): the `CompanyRecord` object initialiser inside
  `LoadCsv`. Columns are read by position and column 12 is skipped. The
  employees column drops `,` and the three currency columns drop `$` and
  `,`. The emptiness test looks at the raw text. The members are evaluated in
  source order, so the first failing column decides the error.
- `loader.dfy` (`Loader`): the `LoadCsv` loop. It produces one record per
  line, in order, and the first failing line aborts the whole load.
- `queries.dfy` (`Queries`): the two `FirstOrDefault` scans, by text and by
  id.
- `service.dfy` (`Service`): the service object. Its field holds the table.
  `LoadCompanyData` fills the table only while it is empty. Each of the two
  handlers loads and then looks up.
- `text.dfy` (`Text`) holds the string operations the source calls
  (`Replace(x, "")`, `ToUpper` and `Contains`), and the join that undoes a
  split, used by the round-trip lemmas.
- `wrappers.dfy` (`Wrappers`) holds `Option` and `Result`.

The file's contents are a parameter: a sequence of lines. A parse failure,
which is an exception in C#, is a `Result` error naming the column. A short
line gives `MissingColumn(i)`, standing for `IndexOutOfRangeException`. An
unparsable number gives `NotANumber(i)`, standing for `FormatException` or
`OverflowException`.

## Model

| member | source | states |
|---|---|---|
| Csv.ParseCsvLine | dotnet/notebooks/CompanyDataService/CompanyDataService/Program.cs:13-38 | The loop returns the fields of the per-character state machine (`Fields`). There are as many fields as commas met outside quotes, plus one. No field contains `"`. Joining the fields with `,` gives the line with every `"` removed. |
| Csv.QuoteFlagIsParity | dotnet/notebooks/CompanyDataService/CompanyDataService/Program.cs:26-29 | After any prefix of the line, the quote flag is set exactly when the prefix holds an odd number of `"`. |
| Csv.FieldCount | dotnet/notebooks/CompanyDataService/CompanyDataService/Program.cs:21-25 | The number of fields is the number of unquoted commas plus one. So there is always at least one field: the last buffer is pushed even when empty. |
| Csv.FieldsHaveNoQuotes | dotnet/notebooks/CompanyDataService/CompanyDataService/Program.cs:26-33 | No field ever contains `"`: a quote only flips the flag. |
| Csv.JoinRestoresLine | dotnet/notebooks/CompanyDataService/CompanyDataService/Program.cs:19-36 | Joining the fields with `,` gives the input line with every `"` removed. |
| Csv.UnquotedLineSplitsAtCommas | dotnet/notebooks/CompanyDataService/CompanyDataService/Program.cs:21-25 | A line with k commas and no `"` splits into exactly k + 1 fields. None of them contains a comma, and their join is the line. |
| Csv.QuotedLineRoundTrip | dotnet/notebooks/CompanyDataService/CompanyDataService/Program.cs:19-36 | Fields without `"`, each wrapped in quotes and joined with `,`, split back into exactly themselves, even when they contain commas. |
| Csv.QuotedCommaDoesNotSplit | dotnet/notebooks/CompanyDataService/CompanyDataService/Program.cs:21-33 | A quoted `a,b` stays one field, `a,b`. |
| Csv.MixedLineRoundTrip | dotnet/notebooks/CompanyDataService/CompanyDataService/Program.cs:19-36 | Fields joined with `,`, each quoted or left bare, split back into exactly themselves. This needs no `"` in any field and no `,` in a bare field. So a row that quotes only its columns holding commas splits at the commas between columns and nowhere else. |
| Csv.PartlyQuotedExample | dotnet/notebooks/CompanyDataService/CompanyDataService/Program.cs:21-33 | `a,"b,c"` splits into `a` and `b,c`. |
| Numbers.ParseInt | dotnet/notebooks/CompanyDataService/CompanyDataService/Program.cs:49-50 | `int.Parse` succeeds only on a non-empty digit string, and its value lies in 0 .. 2^31 - 1. |
| Numbers.ParseIntRoundTrip | dotnet/notebooks/CompanyDataService/CompanyDataService/Program.cs:49-50 | The decimal digits of any n up to 2^31 - 1 parse back to n. |
| Numbers.ParseIntRejectsOverflow | dotnet/notebooks/CompanyDataService/CompanyDataService/Program.cs:49-50 | The digits of any n above 2^31 - 1 fail to parse, as the `OverflowException` does. |
| Numbers.ParseIntIgnoresLeadingZero | dotnet/notebooks/CompanyDataService/CompanyDataService/Program.cs:49-50 | A digit string with a leading `0` is accepted exactly when the string without it is, and reads as the same value. So `007` reads as 7. |
| Numbers.ParseDecimal | dotnet/notebooks/CompanyDataService/CompanyDataService/Program.cs:58-60 | `decimal.Parse` succeeds only on non-empty text, and the scale it keeps is shorter than the text. Text without a point reads as its digits with scale 0, leading zeros included. |
| Numbers.ParseDecimalAccepts | dotnet/notebooks/CompanyDataService/CompanyDataService/Program.cs:58-60 | `decimal.Parse` succeeds exactly on the texts of the grammar `DecimalSyntax`: a non-empty digit string, or digits, one `.` and digits with at least one digit in all. Any other text is a parse failure. |
| Numbers.MalformedDecimalExamples | dotnet/notebooks/CompanyDataService/CompanyDataService/Program.cs:58-60 | `1a` and `1.2.3` are parse failures. |
| Numbers.ParseDecimalPoint | dotnet/notebooks/CompanyDataService/CompanyDataService/Program.cs:58-60 | `I.F` parses to the exact value I + F / 10^\|F\|, with scale \|F\|. |
| Numbers.ParseDecimalRoundTrip | dotnet/notebooks/CompanyDataService/CompanyDataService/Program.cs:58-60 | Every decimal, written out with its full scale, parses back to itself, scale included. |
| Numbers.EmptyIsNotANumber | dotnet/notebooks/CompanyDataService/CompanyDataService/Program.cs:49-60 | Empty text fails both parses, and `.` alone fails `decimal.Parse`. |
| Text.ContainsAt | dotnet/notebooks/CompanyDataService/CompanyDataService/Program.cs:85 | `Contains(hay, needle)` holds exactly when the needle occurs in the hay at some offset. |
| Text.UpperIdempotent | dotnet/notebooks/CompanyDataService/CompanyDataService/Program.cs:85 | Upper-casing twice is upper-casing once. |
| Text.RemoveKeeps | dotnet/notebooks/CompanyDataService/CompanyDataService/Program.cs:57-60 | `Replace(c, "")` keeps every other character: x occurs in the result exactly when it occurs in the input. |
| Records.EmployeesValue | dotnet/notebooks/CompanyDataService/CompanyDataService/Program.cs:57 | An empty employees column is 0. Any value read lies in 0 .. 2^31 - 1. |
| Records.StripCurrency | dotnet/notebooks/CompanyDataService/CompanyDataService/Program.cs:58-60 | The text handed to `decimal.Parse` holds no `$` and no `,`. |
| Records.CurrencyValue | dotnet/notebooks/CompanyDataService/CompanyDataService/Program.cs:58-60 | An empty currency column is 0. |
| Records.AssembleRecord | dotnet/notebooks/CompanyDataService/CompanyDataService/Program.cs:46-63 | A line with fewer than 15 fields fails. A missing column is one the line lacks, below 15. A column that is not a number exists and is one of the six numeric columns. A record's id, rank and employees lie in 0 .. 2^31 - 1. |
| Records.AssembleRecordMeaning | dotnet/notebooks/CompanyDataService/CompanyDataService/Program.cs:47-63 | Assembly succeeds exactly when the line has 15 columns and its six numeric columns parse. The record is then each column at its position, coerced, with the text columns unchanged and column 12 unused. |
| Records.SkippedColumnIgnored | dotnet/notebooks/CompanyDataService/CompanyDataService/Program.cs:60-61 | Whatever column 12 holds, the outcome, error or record, is the same. |
| Records.SeparatorsOnlyFail | dotnet/notebooks/CompanyDataService/CompanyDataService/Program.cs:57-60 | A non-empty column made only of `$` and `,` fails as a currency. One made only of `,` fails as employees. The emptiness test comes before stripping. |
| Records.EmployeesIgnoreComma | dotnet/notebooks/CompanyDataService/CompanyDataService/Program.cs:57 | A `,` anywhere in a non-empty employees column does not change its value. |
| Records.CurrencyIgnoresSymbol | dotnet/notebooks/CompanyDataService/CompanyDataService/Program.cs:58-60 | A `$` or `,` anywhere in a non-empty currency column does not change its value. |
| Records.EmployeesRoundTrip | dotnet/notebooks/CompanyDataService/CompanyDataService/Program.cs:57 | An employee count written in digits reads back as itself. |
| Records.CurrencyRoundTrip | dotnet/notebooks/CompanyDataService/CompanyDataService/Program.cs:58-60 | A decimal written with a leading `$` reads back as itself, scale included. |
| Records.GroupedEmployees | dotnet/notebooks/CompanyDataService/CompanyDataService/Program.cs:57 | An employee count with a thousands `,` anywhere among its digits reads as the count. |
| Records.GroupedAmount | dotnet/notebooks/CompanyDataService/CompanyDataService/Program.cs:58-60 | A whole amount written as `$` and digits with a `,` anywhere among them reads as the amount. |
| Records.EmployeesExample | dotnet/notebooks/CompanyDataService/CompanyDataService/Program.cs:57 | `1,234` reads as 1234. |
| Records.RevenueExample | dotnet/notebooks/CompanyDataService/CompanyDataService/Program.cs:58 | `$45,000` reads as 45000. |
| Records.EmptyAndBareSymbolExamples | dotnet/notebooks/CompanyDataService/CompanyDataService/Program.cs:58 | An empty revenue column reads as 0, and `$` alone is a parse failure. |
| Records.RecordRoundTrip | dotnet/notebooks/CompanyDataService/CompanyDataService/Program.cs:46-63 | Every loadable record, written as a line of quoted columns, splits and assembles back into itself. |
| Records.MixedRowAssembles | dotnet/notebooks/CompanyDataService/CompanyDataService/Program.cs:46-63 | A row whose columns are each quoted or bare, with no comma in a bare column, assembles exactly as its columns do. |
| Records.GroupedRowRoundTrip | dotnet/notebooks/CompanyDataService/CompanyDataService/Program.cs:46-63 | A record written with its employee count grouped by a comma, as in `"1,200"`, and every other column quoted or bare, reads back as the record. The grouped column must be the quoted one. |
| Records.AssembledIsLoadable | dotnet/notebooks/CompanyDataService/CompanyDataService/Program.cs:46-63 | Every record assembled from a split line has its numbers in range and no `"` in any text column. |
| Loader.Collect | dotnet/notebooks/CompanyDataService/CompanyDataService/Program.cs:44-65 | The loop's accumulation succeeds exactly when every line's result does. It then holds one value per line, in line order. |
| Loader.FailedPrefixDecides | dotnet/notebooks/CompanyDataService/CompanyDataService/Program.cs:44-65 | Once a prefix of the lines fails, the later lines change nothing, and no partial table results. |
| Loader.FirstFailureDecides | dotnet/notebooks/CompanyDataService/CompanyDataService/Program.cs:44-65 | The error reported is the error of the first failing line. |
| Loader.LoadAllMeaning | dotnet/notebooks/CompanyDataService/CompanyDataService/Program.cs:39-68 | A load succeeds exactly when every line assembles. The table then has one record per line, and record i is read from line i. |
| Loader.LoadAllReportsFirstFailure | dotnet/notebooks/CompanyDataService/CompanyDataService/Program.cs:44-65 | When line i is the first line that fails, the load fails with line i's error. |
| Loader.LoadCsv | dotnet/notebooks/CompanyDataService/CompanyDataService/Program.cs:39-68 | The loop over the lines returns exactly `LoadAll(lines)`. |
| Loader.LoadedAreLoadable | dotnet/notebooks/CompanyDataService/CompanyDataService/Program.cs:39-68 | Every record of a loaded table is loadable. |
| Loader.FileRoundTrip | dotnet/notebooks/CompanyDataService/CompanyDataService/Program.cs:39-68 | A table of loadable records, written one line per record, loads back to the same table in the same order. |
| Queries.FirstWhere | dotnet/notebooks/CompanyDataService/CompanyDataService/Program.cs:85 | `FirstOrDefault` finds an index whose element satisfies the condition, and no earlier element does. It finds nothing exactly when no element satisfies it. |
| Queries.FindByText | dotnet/notebooks/CompanyDataService/CompanyDataService/Program.cs:85 | The result is the first record, in table order, whose ticker equals the text or whose name contains it, both compared upper-cased. There is no result exactly when no record matches. |
| Queries.FindById | dotnet/notebooks/CompanyDataService/CompanyDataService/Program.cs:94 | The result is the first record, in table order, with that id. There is no result exactly when no record has it. |
| Queries.FindByTextIgnoresCase | dotnet/notebooks/CompanyDataService/CompanyDataService/Program.cs:85 | Two texts that upper-case alike find the same record. |
| Queries.FindByUpperText | dotnet/notebooks/CompanyDataService/CompanyDataService/Program.cs:85 | A text finds what its upper-cased form finds. |
| Queries.FindByIdPresent | dotnet/notebooks/CompanyDataService/CompanyDataService/Program.cs:94 | When ids are unique, looking up a record's id returns that record. |
| Queries.EmptyTextFindsFirstNamed | dotnet/notebooks/CompanyDataService/CompanyDataService/Program.cs:85 | The empty text is contained in every name, so it finds the first record with a non-empty name. |
| Queries.TickerExample | dotnet/notebooks/CompanyDataService/CompanyDataService/Program.cs:85 | The text `AAPL` finds a record whose ticker is `aapl`, whatever its name. |
| Queries.NameExample | dotnet/notebooks/CompanyDataService/CompanyDataService/Program.cs:85 | The text `tech` finds a first record named `Fintech`. |
| Service.LoadedTableIsFinal | dotnet/notebooks/CompanyDataService/CompanyDataService/Program.cs:72-79 | Once the table is non-empty, no later request reads the file or changes the table, whatever the file holds. |
| Service.FirstLoadedTableStays | dotnet/notebooks/CompanyDataService/CompanyDataService/Program.cs:72-79 | After a series of requests that leaves a non-empty table, further requests keep exactly that table. |
| Service.ReadOnceWhenFileLoads | dotnet/notebooks/CompanyDataService/CompanyDataService/Program.cs:72-79 | When every file version loads to a non-empty table, the file is read at most once. |
| Service.EmptyLoadIsReadEveryTime | dotnet/notebooks/CompanyDataService/CompanyDataService/Program.cs:72-79 | A file that loads to no records leaves the table empty, so every request reads the file again. |
| Service.FailedLoadIsRetried | dotnet/notebooks/CompanyDataService/CompanyDataService/Program.cs:72-79 | A failed load leaves the table empty. The next request reads the file again, and it publishes that table once the file loads. |
| Service.CompanyDataService.constructor | dotnet/notebooks/CompanyDataService/CompanyDataService/Program.cs:70 | The service starts with an empty table. |
| Service.CompanyDataService.LoadCompanyData | dotnet/notebooks/CompanyDataService/CompanyDataService/Program.cs:72-79 | An empty argument loads the whole file. A successful load replaces the table. A failed load leaves the table as it was and reports the error. A non-empty argument changes nothing. |
| Service.CompanyDataService.FindCompany | dotnet/notebooks/CompanyDataService/CompanyDataService/Program.cs:83-90 | The handler loads if needed, then returns the id of `FindByText` over the table now held, or nothing, or the load error. |
| Service.CompanyDataService.FindCompanyById | dotnet/notebooks/CompanyDataService/CompanyDataService/Program.cs:92-98 | The handler loads if needed, then returns `FindById` over the table now held, or the load error. |

## Behaviour of `Program.cs` worth knowing

- **No lock around the load.** `LoadCompanyData` (lines 72-79) is a plain
  check-then-assign on `_companyData`, with no lock and no double check.
  The model runs requests one after another.
- **The emptiness test comes before stripping.** Lines 57-60 test the raw
  column with `string.IsNullOrEmpty` and only then remove `$` and `,`. So a
  column holding only `$` or `,` is a parse failure, not 0
  (`Records.SeparatorsOnlyFail`, `Records.EmptyAndBareSymbolExamples`).
- **An empty table means not loaded.** A failed load leaves the table empty
  and is retried by the next request (`Service.FailedLoadIsRetried`). A file
  that loads to no records is read again on every request
  (`Service.EmptyLoadIsReadEveryTime`). A file that loads to a non-empty
  table is read at most once (`Service.ReadOnceWhenFileLoads`), and that
  table then never changes (`Service.LoadedTableIsFinal`).

## Left out

- HTTP hosting, routing, JSON serialisation and result mapping (lines 1-11,
  81, 100, 120-124). Each handler returns `Result<Option<…>, LoadError>` in
  place of `Results.Ok`, `Results.NotFound` and an escaping exception.
- File access (`File.ReadAllLines`, `Path.Combine`, lines 42 and 76-77). The
  file's lines are a parameter, and a missing or unreadable file is not
  modelled.
- Concurrency. The source has no lock. The model runs requests one after
  another, so it does not capture two first requests loading at the same
  time.
- Numbers.ParseInt: accepts digit strings only. `int.Parse` also allows
  leading and trailing white space and a sign, which would admit negative ids,
  and it depends on the culture. The 32-bit overflow check is modelled.
- Numbers.ParseDecimal: accepts digits with an optional point only.
  `decimal.Parse(string)` also allows leading and trailing white space, a
  leading or trailing sign, thousands separators and culture-specific
  symbols. The 28-digit (96-bit) limit of `decimal` and its rounding are not
  modelled. An exponent such as `1E5` is rejected, as `decimal.Parse` rejects
  it.
- Text.Upper: upper-cases ASCII letters only. `ToUpper` follows the current
  culture and all of Unicode.
- The nullable `string?` members of `CompanyRecord` are never null once
  loaded, because every field the splitter produces is a string. So
  `string.IsNullOrEmpty` is modelled as the empty test.
