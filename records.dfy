/** Record assembly: the object initialiser of `LoadCsv` that turns the
    fields of one line into a `CompanyRecord` by fixed column positions,
    coercing the numeric columns. Column 12 is never read. */
module Records {
  import opened Wrappers
  import opened Text
  import opened Numbers
  import Csv

  /** One row of the dataset. The text columns are kept as read; the source
      declares them nullable, but the splitter never yields a null field. */
  datatype CompanyRecord = CompanyRecord(
    id: int,
    rank: int,
    name: string,
    industry: string,
    city: string,
    state: string,
    zip: string,
    website: string,
    employees: int,
    revenueInMillions: Decimal,
    profitInMillions: Decimal,
    valuationInMillions: Decimal,
    ticker: string,
    ceo: string)

  /** Why a line cannot become a record: the line has no column at that
      position (`IndexOutOfRangeException`), or the column's text is not a
      number (`FormatException`, or `OverflowException` for an `int`). */
  datatype LoadError = MissingColumn(column: nat) | NotANumber(column: nat)

  // Column positions, in the order the initialiser reads them.
  const IdColumn: nat := 0
  const RankColumn: nat := 1
  const NameColumn: nat := 2
  const IndustryColumn: nat := 3
  const CityColumn: nat := 4
  const StateColumn: nat := 5
  const ZipColumn: nat := 6
  const WebsiteColumn: nat := 7
  const EmployeesColumn: nat := 8
  const RevenueColumn: nat := 9
  const ValuationColumn: nat := 10
  const ProfitColumn: nat := 11
  /** Present in the file, never read. */
  const SkippedColumn: nat := 12
  const TickerColumn: nat := 13
  const CeoColumn: nat := 14
  /** Lines with fewer columns fail: `fields[14]` is the last one read. */
  const ColumnCount: nat := 15

  /** `fields[i]`. */
  function Column(fields: seq<string>, i: nat): Result<string, LoadError>
  {
    if i < |fields| then Ok(fields[i]) else Err(MissingColumn(i))
  }

  /** A parse result, with a failure charged to column `i`. */
  function Parsed<T>(v: Option<T>, i: nat): Result<T, LoadError>
  {
    match v
    case Some(x) => Ok(x)
    case None => Err(NotANumber(i))
  }

  /** The employees column: empty text is 0; otherwise every `,` is removed
      and the rest goes to `int.Parse`. */
  function EmployeesValue(raw: string): (r: Option<int>)
    ensures raw == [] ==> r == Some(0)
    ensures r.Some? ==> 0 <= r.value <= Int32Max
  {
    if raw != [] then ParseInt(Remove(raw, ',')) else Some(0)
  }

  /** The text a currency column is parsed from: every `$` and every `,`
      removed. */
  function StripCurrency(raw: string): (r: string)
    ensures '$' !in r && ',' !in r
  {
    RemoveKeeps(Remove(raw, '$'), ',', '$');
    Remove(Remove(raw, '$'), ',')
  }

  /** A currency column: empty text is 0; otherwise it is stripped and goes to
      `decimal.Parse`. The emptiness test looks at the raw text, before
      stripping. */
  function CurrencyValue(raw: string): (r: Option<Decimal>)
    ensures raw == [] ==> r == Some(Zero)
  {
    if raw != [] then ParseDecimal(StripCurrency(raw)) else Some(Zero)
  }

  /** The object initialiser, its members evaluated in source order so that
      the first failing column decides the error. */
  function AssembleRecord(fields: seq<string>): (r: Result<CompanyRecord, LoadError>)
    ensures |fields| < ColumnCount ==> r.Err?
    ensures r.Ok? ==> 0 <= r.value.id <= Int32Max && 0 <= r.value.rank <= Int32Max
    ensures r.Ok? ==> 0 <= r.value.employees <= Int32Max
    ensures r.Err? && r.error.MissingColumn? ==> |fields| <= r.error.column < ColumnCount
    ensures r.Err? && r.error.NotANumber? ==>
      && r.error.column < |fields|
      && r.error.column in {IdColumn, RankColumn, EmployeesColumn, RevenueColumn, ValuationColumn, ProfitColumn}
  {
    var idText :- Column(fields, IdColumn);
    var id :- Parsed(ParseInt(idText), IdColumn);
    var rankText :- Column(fields, RankColumn);
    var rank :- Parsed(ParseInt(rankText), RankColumn);
    var name :- Column(fields, NameColumn);
    var industry :- Column(fields, IndustryColumn);
    var city :- Column(fields, CityColumn);
    var state :- Column(fields, StateColumn);
    var zip :- Column(fields, ZipColumn);
    var website :- Column(fields, WebsiteColumn);
    var employeesText :- Column(fields, EmployeesColumn);
    var employees :- Parsed(EmployeesValue(employeesText), EmployeesColumn);
    var revenueText :- Column(fields, RevenueColumn);
    var revenue :- Parsed(CurrencyValue(revenueText), RevenueColumn);
    var valuationText :- Column(fields, ValuationColumn);
    var valuation :- Parsed(CurrencyValue(valuationText), ValuationColumn);
    var profitText :- Column(fields, ProfitColumn);
    var profit :- Parsed(CurrencyValue(profitText), ProfitColumn);
    var ticker :- Column(fields, TickerColumn);
    var ceo :- Column(fields, CeoColumn);
    Ok(CompanyRecord(id, rank, name, industry, city, state, zip, website,
                     employees, revenue, profit, valuation, ticker, ceo))
  }

  // ---------------------------------------------------------------------
  // What assembly means, stated column by column

  /** Every numeric column of a line with all fifteen columns parses. */
  predicate ColumnsParse(fields: seq<string>)
    requires |fields| >= ColumnCount
  {
    && ParseInt(fields[IdColumn]).Some?
    && ParseInt(fields[RankColumn]).Some?
    && EmployeesValue(fields[EmployeesColumn]).Some?
    && CurrencyValue(fields[RevenueColumn]).Some?
    && CurrencyValue(fields[ValuationColumn]).Some?
    && CurrencyValue(fields[ProfitColumn]).Some?
  }

  /** Assembly succeeds exactly when the line has all fifteen columns and its
      six numeric columns parse; the record then holds each column at its
      position, coerced, with the text columns unchanged. */
  lemma AssembleRecordMeaning(fields: seq<string>)
    ensures AssembleRecord(fields).Ok? <==> |fields| >= ColumnCount && ColumnsParse(fields)
    ensures AssembleRecord(fields).Ok? ==> AssembleRecord(fields).value == CompanyRecord(
      ParseInt(fields[IdColumn]).value, ParseInt(fields[RankColumn]).value,
      fields[NameColumn], fields[IndustryColumn], fields[CityColumn], fields[StateColumn],
      fields[ZipColumn], fields[WebsiteColumn],
      EmployeesValue(fields[EmployeesColumn]).value,
      CurrencyValue(fields[RevenueColumn]).value,
      CurrencyValue(fields[ProfitColumn]).value,
      CurrencyValue(fields[ValuationColumn]).value,
      fields[TickerColumn], fields[CeoColumn])
  {
  }

  /** Whatever column 12 holds, the outcome is the same. */
  lemma SkippedColumnIgnored(fields: seq<string>, x: string)
    requires SkippedColumn < |fields|
    ensures AssembleRecord(fields[SkippedColumn := x]) == AssembleRecord(fields)
  {
    var g := fields[SkippedColumn := x];
    forall i: nat | i != SkippedColumn
      ensures Column(g, i) == Column(fields, i)
    {
      if i < |fields| {
        assert g[i] == fields[i];
      }
    }
  }

  /** A non-empty column that strips down to nothing (only `$` and `,`) fails,
      because the emptiness test comes before stripping. */
  lemma SeparatorsOnlyFail(raw: string)
    requires raw != []
    requires forall i :: 0 <= i < |raw| ==> raw[i] == '$' || raw[i] == ','
    ensures CurrencyValue(raw) == None
    ensures (forall i :: 0 <= i < |raw| ==> raw[i] == ',') ==> EmployeesValue(raw) == None
  {
    EmptyIsNotANumber();
    RemoveLeavesOnly(raw, '$', ',');
    RemoveAll(Remove(raw, '$'), ',');
    if forall i :: 0 <= i < |raw| ==> raw[i] == ',' {
      RemoveAll(raw, ',');
    }
  }

  // ---------------------------------------------------------------------
  // Separators and currency symbols

  lemma StripAppend(a: string, b: string)
    ensures StripCurrency(a + b) == StripCurrency(a) + StripCurrency(b)
  {
    RemoveAppend(a, b, '$');
    RemoveAppend(Remove(a, '$'), Remove(b, '$'), ',');
  }

  lemma StripSymbol(x: char)
    requires x == ',' || x == '$'
    ensures StripCurrency([x]) == []
  {
    assert [x][..0] == [];
  }

  /** A `,` anywhere in the employees column, beside something else, is
      ignored: `"1,234"` reads as `"1234"`. */
  lemma EmployeesIgnoreComma(a: string, b: string)
    requires a + b != []
    ensures EmployeesValue(a + [','] + b) == EmployeesValue(a + b)
  {
    RemoveDrops(a, b, ',');
  }

  /** A `,` or a `$` anywhere in a currency column, beside something else,
      is ignored: `"$45,000"` reads as `"45000"`. */
  lemma CurrencyIgnoresSymbol(a: string, b: string, x: char)
    requires a + b != []
    requires x == ',' || x == '$'
    ensures CurrencyValue(a + [x] + b) == CurrencyValue(a + b)
  {
    StripIgnores(a, b, x);
    var s := StripCurrency(a + [x] + b);
    assert s == StripCurrency(a + b);
  }

  lemma StripIgnores(a: string, b: string, x: char)
    requires x == ',' || x == '$'
    ensures StripCurrency(a + [x] + b) == StripCurrency(a + b)
  {
    StripAppend(a + [x], b);
    StripAppend(a, [x]);
    StripAppend(a, b);
    StripSymbol(x);
    assert StripCurrency(a + [x]) == StripCurrency(a);
  }

  /** An employee count written in digits reads back as itself. */
  lemma EmployeesRoundTrip(n: nat)
    requires n <= Int32Max
    ensures EmployeesValue(Digits(n)) == Some(n)
  {
    DigitsHaveNoPoint(Digits(n));
    RemoveAbsent(Digits(n), ',');
    ParseIntRoundTrip(n);
  }

  /** A currency amount as the dataset writes it: `$` and the amount with
      its full scale. */
  function CurrencyText(d: Decimal): (r: string)
    ensures r != []
  {
    ['$'] + DecimalText(d)
  }

  /** A currency amount written with `$` reads back as itself, scale
      included. */
  lemma CurrencyRoundTrip(d: Decimal)
    ensures CurrencyValue(CurrencyText(d)) == Some(d)
  {
    var t := DecimalText(d);
    DecimalTextSymbols(d);
    StripAppend(['$'], t);
    StripSymbol('$');
    RemoveAbsent(t, '$');
    RemoveAbsent(t, ',');
    assert StripCurrency(CurrencyText(d)) == t;
    ParseDecimalRoundTrip(d);
  }

  // ---------------------------------------------------------------------
  // Writing a record back as a line

  /** A record the loader can produce: the three `int` columns within the
      digit grammar and no `"` in any text column. */
  predicate Loadable(rec: CompanyRecord)
  {
    && 0 <= rec.id <= Int32Max && 0 <= rec.rank <= Int32Max && 0 <= rec.employees <= Int32Max
    && '"' !in rec.name && '"' !in rec.industry && '"' !in rec.city && '"' !in rec.state
    && '"' !in rec.zip && '"' !in rec.website && '"' !in rec.ticker && '"' !in rec.ceo
  }

  /** Columns 0 to 7 of a line that describes `rec`. */
  function IdentityColumns(rec: CompanyRecord): (cols: seq<string>)
    requires 0 <= rec.id && 0 <= rec.rank
    ensures |cols| == 8
  {
    [Digits(rec.id), Digits(rec.rank),
     rec.name, rec.industry, rec.city, rec.state, rec.zip, rec.website]
  }

  /** Columns 8 to 11: the employee count and the three amounts. */
  function AmountColumns(rec: CompanyRecord): (cols: seq<string>)
    requires 0 <= rec.employees
    ensures |cols| == 4
  {
    [Digits(rec.employees),
     CurrencyText(rec.revenueInMillions),
     CurrencyText(rec.valuationInMillions),
     CurrencyText(rec.profitInMillions)]
  }

  /** The columns of a line that describes `rec`, column 12 left empty. */
  function RecordColumns(rec: CompanyRecord): (cols: seq<string>)
    requires Loadable(rec)
    ensures |cols| == ColumnCount
  {
    IdentityColumns(rec) + AmountColumns(rec) + [[], rec.ticker, rec.ceo]
  }

  lemma AmountColumnsHaveNoQuotes(rec: CompanyRecord)
    requires Loadable(rec)
    ensures forall i :: 0 <= i < 4 ==> '"' !in AmountColumns(rec)[i]
  {
    DigitsHaveNoPoint(Digits(rec.employees));
    DecimalTextSymbols(rec.revenueInMillions);
    DecimalTextSymbols(rec.valuationInMillions);
    DecimalTextSymbols(rec.profitInMillions);
  }

  lemma RecordColumnsHaveNoQuotes(rec: CompanyRecord)
    requires Loadable(rec)
    ensures forall i :: 0 <= i < |RecordColumns(rec)| ==> '"' !in RecordColumns(rec)[i]
  {
    var front, amounts := IdentityColumns(rec), AmountColumns(rec);
    var back: seq<string> := [[], rec.ticker, rec.ceo];
    DigitsHaveNoPoint(front[0]);
    DigitsHaveNoPoint(front[1]);
    AmountColumnsHaveNoQuotes(rec);
    var cols := RecordColumns(rec);
    assert cols == front + amounts + back;
    forall i | 0 <= i < |cols| ensures '"' !in cols[i] {
      if i < 8 {
        assert cols[i] == front[i];
      } else if i < 12 {
        assert cols[i] == amounts[i - 8];
      } else {
        assert cols[i] == back[i - 12];
      }
    }
  }

  /** A line that describes `rec`, every column quoted. */
  function FormatLine(rec: CompanyRecord): string
    requires Loadable(rec)
  {
    Csv.QuotedLine(RecordColumns(rec))
  }

  /** Fifteen columns that each read back as the corresponding member of
      `rec` assemble into `rec`. */
  lemma AssembleKnownColumns(fields: seq<string>, rec: CompanyRecord)
    requires |fields| == ColumnCount
    requires ParseInt(fields[IdColumn]) == Some(rec.id)
    requires ParseInt(fields[RankColumn]) == Some(rec.rank)
    requires fields[NameColumn] == rec.name && fields[IndustryColumn] == rec.industry
    requires fields[CityColumn] == rec.city && fields[StateColumn] == rec.state
    requires fields[ZipColumn] == rec.zip && fields[WebsiteColumn] == rec.website
    requires EmployeesValue(fields[EmployeesColumn]) == Some(rec.employees)
    requires CurrencyValue(fields[RevenueColumn]) == Some(rec.revenueInMillions)
    requires CurrencyValue(fields[ValuationColumn]) == Some(rec.valuationInMillions)
    requires CurrencyValue(fields[ProfitColumn]) == Some(rec.profitInMillions)
    requires fields[TickerColumn] == rec.ticker && fields[CeoColumn] == rec.ceo
    ensures AssembleRecord(fields) == Ok(rec)
  {
  }

  lemma IdentityColumnsRead(rec: CompanyRecord)
    requires Loadable(rec)
    ensures var cols := RecordColumns(rec);
      && ParseInt(cols[IdColumn]) == Some(rec.id)
      && ParseInt(cols[RankColumn]) == Some(rec.rank)
      && cols[NameColumn] == rec.name && cols[IndustryColumn] == rec.industry
      && cols[CityColumn] == rec.city && cols[StateColumn] == rec.state
      && cols[ZipColumn] == rec.zip && cols[WebsiteColumn] == rec.website
      && cols[TickerColumn] == rec.ticker && cols[CeoColumn] == rec.ceo
  {
    var cols := RecordColumns(rec);
    assert ParseInt(cols[IdColumn]) == Some(rec.id) by {
      ParseIntRoundTrip(rec.id);
    }
    assert ParseInt(cols[RankColumn]) == Some(rec.rank) by {
      ParseIntRoundTrip(rec.rank);
    }
  }

  lemma AmountColumnsRead(rec: CompanyRecord)
    requires Loadable(rec)
    ensures var cols := RecordColumns(rec);
      && EmployeesValue(cols[EmployeesColumn]) == Some(rec.employees)
      && CurrencyValue(cols[RevenueColumn]) == Some(rec.revenueInMillions)
      && CurrencyValue(cols[ValuationColumn]) == Some(rec.valuationInMillions)
      && CurrencyValue(cols[ProfitColumn]) == Some(rec.profitInMillions)
  {
    var cols := RecordColumns(rec);
    assert cols[EmployeesColumn] == Digits(rec.employees);
    assert cols[RevenueColumn] == CurrencyText(rec.revenueInMillions);
    assert cols[ValuationColumn] == CurrencyText(rec.valuationInMillions);
    assert cols[ProfitColumn] == CurrencyText(rec.profitInMillions);
    assert EmployeesValue(cols[EmployeesColumn]) == Some(rec.employees) by {
      EmployeesRoundTrip(rec.employees);
    }
    assert CurrencyValue(cols[RevenueColumn]) == Some(rec.revenueInMillions) by {
      CurrencyRoundTrip(rec.revenueInMillions);
    }
    assert CurrencyValue(cols[ValuationColumn]) == Some(rec.valuationInMillions) by {
      CurrencyRoundTrip(rec.valuationInMillions);
    }
    assert CurrencyValue(cols[ProfitColumn]) == Some(rec.profitInMillions) by {
      CurrencyRoundTrip(rec.profitInMillions);
    }
  }

  /** Every loadable record, written as a line, is split and assembled back
      into itself. */
  lemma RecordRoundTrip(rec: CompanyRecord)
    requires Loadable(rec)
    ensures AssembleRecord(Csv.Fields(FormatLine(rec))) == Ok(rec)
  {
    var cols := RecordColumns(rec);
    IdentityColumnsRead(rec);
    AmountColumnsRead(rec);
    AssembleKnownColumns(cols, rec);
    RecordColumnsHaveNoQuotes(rec);
    Csv.QuotedLineRoundTrip(cols);
  }

  /** A row whose columns are each quoted or left bare assembles exactly as
      its columns do: the splitter cuts it at the commas between columns and
      nowhere else. */
  lemma MixedRowAssembles(fields: seq<string>, quoted: seq<bool>)
    requires |fields| >= 1 && Csv.Writable(fields, quoted)
    ensures AssembleRecord(Csv.Fields(Csv.MixedLine(fields, quoted))) == AssembleRecord(fields)
  {
    Csv.MixedLineRoundTrip(fields, quoted);
  }

  /** The columns of `rec` with the employee count grouped by a `,` after its
      first `k` digits, as in `1,200`. */
  function GroupedColumns(rec: CompanyRecord, k: nat): (cols: seq<string>)
    requires Loadable(rec) && k <= |Digits(rec.employees)|
    ensures |cols| == ColumnCount
  {
    var digits := Digits(rec.employees);
    RecordColumns(rec)[EmployeesColumn := digits[..k] + [','] + digits[k..]]
  }

  /** A row such as `...,acme.com,"1,200",$500,...`: the grouped employee
      count must be quoted, every other column may be quoted or bare, and the
      row reads back as the record. */
  lemma GroupedRowRoundTrip(rec: CompanyRecord, k: nat, quoted: seq<bool>)
    requires Loadable(rec) && k <= |Digits(rec.employees)|
    requires Csv.Writable(GroupedColumns(rec, k), quoted)
    ensures quoted[EmployeesColumn]
    ensures AssembleRecord(Csv.Fields(Csv.MixedLine(GroupedColumns(rec, k), quoted))) == Ok(rec)
  {
    var g := GroupedColumns(rec, k);
    IdentityColumnsRead(rec);
    AmountColumnsRead(rec);
    GroupedEmployees(rec.employees, k);
    assert g[EmployeesColumn][k] == ',';
    AssembleKnownColumns(g, rec);
    MixedRowAssembles(g, quoted);
  }

  /** Every record assembled from a split line is loadable, so it can be
      written back and read again. */
  lemma AssembledIsLoadable(line: string)
    requires AssembleRecord(Csv.Fields(line)).Ok?
    ensures Loadable(AssembleRecord(Csv.Fields(line)).value)
  {
    var fields := Csv.Fields(line);
    Csv.FieldsHaveNoQuotes(line);
    AssembleRecordMeaning(fields);
  }

  // ---------------------------------------------------------------------
  // The column examples of the dataset

  /** A whole employee count with a `,` anywhere among its digits reads as
      the count. */
  lemma GroupedEmployees(n: nat, k: nat)
    requires n <= Int32Max
    requires k <= |Digits(n)|
    ensures EmployeesValue(Digits(n)[..k] + [','] + Digits(n)[k..]) == Some(n)
  {
    var digits := Digits(n);
    assert digits[..k] + digits[k..] == digits;
    EmployeesIgnoreComma(digits[..k], digits[k..]);
    EmployeesRoundTrip(n);
  }

  /** A whole currency amount written with `$` and a `,` anywhere among its
      digits reads as the amount. */
  lemma GroupedAmount(n: nat, k: nat)
    requires k <= |Digits(n)|
    ensures CurrencyValue(['$'] + Digits(n)[..k] + [','] + Digits(n)[k..]) == Some(Decimal(n, 0))
  {
    var digits, d := Digits(n), Decimal(n, 0);
    assert DecimalText(d) == digits;
    assert ['$'] + digits[..k] + digits[k..] == CurrencyText(d);
    CurrencyIgnoresSymbol(['$'] + digits[..k], digits[k..], ',');
    CurrencyRoundTrip(d);
  }

  /** The employees column `1,234` reads as 1234. The text is a parameter
      pinned by the precondition rather than a literal in the postcondition:
      a literal argument lets the solver unfold the parser over it eagerly,
      which costs far more than going through `GroupedEmployees`. */
  lemma EmployeesExample(raw: string)
    requires raw == "1,234"
    ensures EmployeesValue(raw) == Some(1234)
  {
    var digits := Digits(1234);
    assert digits == "1234";
    assert raw == digits[..1] + [','] + digits[1..];
    GroupedEmployees(1234, 1);
  }

  /** The revenue column `$45,000` reads as 45000. The text is a parameter
      for the same reason as in `EmployeesExample`. */
  lemma RevenueExample(raw: string)
    requires raw == "$45,000"
    ensures CurrencyValue(raw) == Some(Decimal(45000, 0))
  {
    var digits := Digits(45000);
    assert digits == "45000";
    assert raw == ['$'] + digits[..2] + [','] + digits[2..];
    GroupedAmount(45000, 2);
  }

  lemma EmptyAndBareSymbolExamples()
    ensures CurrencyValue("") == Some(Zero)
    ensures CurrencyValue("$") == None
  {
    SeparatorsOnlyFail("$");
  }
}
