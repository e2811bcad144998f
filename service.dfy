/** The service object: the table it holds, the lazy load that fills it, and
    the two endpoints that load and then look up. */
module Service {
  import opened Wrappers
  import opened Records
  import opened Loader
  import opened Queries

  /** `LoadCompanyData(argument)` while the service holds `held` and the file
      holds `lines`: the table held afterwards, or the load failure. Only an
      empty argument makes it read the file. */
  function LoadStep(held: seq<CompanyRecord>, argument: seq<CompanyRecord>, lines: seq<string>)
    : Result<seq<CompanyRecord>, LoadError>
  {
    if |argument| == 0 then LoadAll(lines) else Ok(held)
  }

  /** What every handler does first, `LoadCompanyData(_companyData)`. */
  function EnsureLoaded(held: seq<CompanyRecord>, lines: seq<string>): Result<seq<CompanyRecord>, LoadError>
  {
    LoadStep(held, held, lines)
  }

  /** The table held after one request: a failed load leaves it as it was. */
  function Next(held: seq<CompanyRecord>, lines: seq<string>): seq<CompanyRecord>
  {
    match EnsureLoaded(held, lines)
    case Ok(table) => table
    case Err(_) => held
  }

  /** The table held after a series of requests, the file holding `files[i]`
      when request `i` arrives. */
  function Serve(held: seq<CompanyRecord>, files: seq<seq<string>>): seq<CompanyRecord>
    decreases |files|
  {
    if files == [] then held else Serve(Next(held, files[0]), files[1..])
  }

  /** How many of those requests read the file. */
  function FileReads(held: seq<CompanyRecord>, files: seq<seq<string>>): nat
    decreases |files|
  {
    if files == [] then 0
    else (if |held| == 0 then 1 else 0) + FileReads(Next(held, files[0]), files[1..])
  }

  /** A non-empty table is final: no later request reads the file or changes
      the table, whatever the file holds by then. */
  lemma {:induction false} LoadedTableIsFinal(held: seq<CompanyRecord>, files: seq<seq<string>>)
    requires |held| != 0
    ensures Serve(held, files) == held
    ensures FileReads(held, files) == 0
    decreases |files|
  {
    if files != [] {
      assert Next(held, files[0]) == held;
      LoadedTableIsFinal(held, files[1..]);
    }
  }

  /** Requests compose: serving `a` and then `b` is serving `a + b`. */
  lemma {:induction false} ServeAppend(held: seq<CompanyRecord>, a: seq<seq<string>>, b: seq<seq<string>>)
    ensures Serve(held, a + b) == Serve(Serve(held, a), b)
    decreases |a|
  {
    if a != [] {
      assert (a + b)[0] == a[0];
      assert (a + b)[1..] == a[1..] + b;
      ServeAppend(Next(held, a[0]), a[1..], b);
    } else {
      assert a + b == b;
    }
  }

  /** Once some series of requests has left a non-empty table, every later
      request leaves that table in place. */
  lemma FirstLoadedTableStays(held: seq<CompanyRecord>, before: seq<seq<string>>, after: seq<seq<string>>)
    requires |Serve(held, before)| != 0
    ensures Serve(held, before + after) == Serve(held, before)
  {
    ServeAppend(held, before, after);
    LoadedTableIsFinal(Serve(held, before), after);
  }

  /** When every file the requests see loads to a non-empty table, the file
      is read at most once. */
  lemma ReadOnceWhenFileLoads(held: seq<CompanyRecord>, files: seq<seq<string>>)
    requires forall i :: 0 <= i < |files| ==> LoadAll(files[i]).Ok? && |LoadAll(files[i]).value| != 0
    ensures FileReads(held, files) <= 1
  {
    if files != [] {
      var next := Next(held, files[0]);
      assert |next| != 0;
      LoadedTableIsFinal(next, files[1..]);
    }
  }

  /** A file that loads to nothing leaves the table empty, so every request
      reads the file again. */
  lemma {:induction false} EmptyLoadIsReadEveryTime(files: seq<seq<string>>)
    requires forall i :: 0 <= i < |files| ==> LoadAll(files[i]) == Ok([])
    ensures FileReads([], files) == |files|
    ensures Serve([], files) == []
    decreases |files|
  {
    if files != [] {
      assert Next([], files[0]) == [];
      EmptyLoadIsReadEveryTime(files[1..]);
    }
  }

  /** A failed load leaves the table empty, so the next request reads the
      file again: the load is retried. */
  lemma FailedLoadIsRetried(bad: seq<string>, good: seq<string>)
    requires LoadAll(bad).Err? && LoadAll(good).Ok?
    ensures Serve([], [bad, good]) == LoadAll(good).value
    ensures FileReads([], [bad, good]) == 2
  {
    var files := [bad, good];
    assert Next([], bad) == [];
    assert files[1..] == [good];
    assert [good][1..] == [];
    assert FileReads([], [good]) == 1 + FileReads(Next([], good), []);
    assert FileReads([], files) == 1 + FileReads([], [good]);
    assert Serve([], [good]) == Serve(Next([], good), []);
    assert Serve([], files) == Serve([], [good]);
  }

  /** The service object of `Program.cs`, holding `_companyData`. */
  class CompanyDataService {
    var companyData: seq<CompanyRecord>

    constructor()
      ensures companyData == []
    {
      companyData := [];
    }

    /** `LoadCompanyData(companyData)`: when the argument is empty, load the
        whole file and publish it; a load that fails publishes nothing. */
    method LoadCompanyData(argument: seq<CompanyRecord>, fileLines: seq<string>)
      returns (failure: Option<LoadError>)
      modifies this
      ensures var step := LoadStep(old(companyData), argument, fileLines);
        && companyData == (if step.Ok? then step.value else old(companyData))
        && failure == (if step.Err? then Some(step.error) else None)
    {
      if |argument| == 0 {
        var loaded := LoadCsv(fileLines);
        if loaded.Err? {
          return Some(loaded.error);
        }
        companyData := loaded.value;
      }
      return None;
    }

    /** The handler of `/find/{company_text}`: load if need be, then the id
        of the first record that matches the text, or the load failure. */
    method FindCompany(companyText: string, fileLines: seq<string>)
      returns (reply: Result<Option<int>, LoadError>)
      modifies this
      ensures companyData == Next(old(companyData), fileLines)
      ensures EnsureLoaded(old(companyData), fileLines).Err? ==>
        reply == Err(EnsureLoaded(old(companyData), fileLines).error)
      ensures EnsureLoaded(old(companyData), fileLines).Ok? ==>
        match FindByText(companyData, companyText)
        case Some(c) => reply == Ok(Some(c.id))
        case None => reply == Ok(None)
    {
      var failure := LoadCompanyData(companyData, fileLines);
      if failure.Some? {
        return Err(failure.value);
      }
      var company := FindByText(companyData, companyText);
      if company.Some? {
        reply := Ok(Some(company.value.id));
      } else {
        reply := Ok(None);
      }
    }

    /** The handler of `/{id}`: load if need be, then the first record with
        that id, or the load failure. */
    method FindCompanyById(id: int, fileLines: seq<string>)
      returns (reply: Result<Option<CompanyRecord>, LoadError>)
      modifies this
      ensures companyData == Next(old(companyData), fileLines)
      ensures EnsureLoaded(old(companyData), fileLines).Err? ==>
        reply == Err(EnsureLoaded(old(companyData), fileLines).error)
      ensures EnsureLoaded(old(companyData), fileLines).Ok? ==>
        reply == Ok(FindById(companyData, id))
    {
      var failure := LoadCompanyData(companyData, fileLines);
      if failure.Some? {
        return Err(failure.value);
      }
      reply := Ok(FindById(companyData, id));
    }
  }
}
