/** Loading the whole data file: every line is split and assembled into one
    record, in file order, and the first line that cannot be assembled
    aborts the load with no partial table. */
module Loader {
  import opened Wrappers
  import opened Records
  import Csv

  /** The accumulation of the loading loop: the values of all results, in
      order, or the error of the first result that failed. */
  function Collect<T, E>(results: seq<Result<T, E>>): (r: Result<seq<T>, E>)
    ensures r.Ok? ==> |r.value| == |results|
    ensures r.Ok? ==> forall i :: 0 <= i < |results| ==> results[i] == Ok(r.value[i])
    ensures r.Ok? <==> forall i :: 0 <= i < |results| ==> results[i].Ok?
    decreases |results|
  {
    if results == [] then Ok([])
    else
      var front :- Collect(results[..|results| - 1]);
      var last :- results[|results| - 1];
      Ok(front + [last])
  }

  /** A prefix that fails makes the whole sequence fail with its error. */
  lemma {:induction false} FailedPrefixDecides<T, E>(results: seq<Result<T, E>>, k: nat)
    requires k <= |results|
    requires Collect(results[..k]).Err?
    ensures Collect(results) == Collect(results[..k])
    decreases |results| - k
  {
    if k < |results| {
      var front := results[..|results| - 1];
      assert front[..k] == results[..k];
      FailedPrefixDecides(front, k);
    } else {
      assert results[..k] == results;
    }
  }

  /** The error reported is that of the first failed result, whatever the
      results after it hold. */
  lemma FirstFailureDecides<T, E>(results: seq<Result<T, E>>, i: nat)
    requires i < |results| && results[i].Err?
    requires forall j :: 0 <= j < i ==> results[j].Ok?
    ensures Collect(results) == Err(results[i].error)
  {
    var before, upTo := results[..i], results[..i + 1];
    assert Collect(before).Ok? by {
      forall j | 0 <= j < i
        ensures before[j].Ok?
      {
        assert before[j] == results[j];
      }
    }
    assert upTo[..i] == before && upTo[i] == results[i];
    FailedPrefixDecides(results, i + 1);
  }

  /** Results that all hold values collect to exactly those values. */
  lemma {:induction false} CollectValues<T, E>(results: seq<Result<T, E>>, values: seq<T>)
    requires |results| == |values|
    requires forall i :: 0 <= i < |results| ==> results[i] == Ok(values[i])
    ensures Collect(results) == Ok(values)
    decreases |results|
  {
    if results != [] {
      var n := |results| - 1;
      CollectValues(results[..n], values[..n]);
      assert values == values[..n] + [values[n]];
    }
  }

  /** One line of the file: split into fields, then assembled. */
  function ReadLine(line: string): Result<CompanyRecord, LoadError>
  {
    AssembleRecord(Csv.Fields(line))
  }

  /** Every line of the file read on its own. */
  function ReadLines(lines: seq<string>): (rs: seq<Result<CompanyRecord, LoadError>>)
    ensures |rs| == |lines|
  {
    seq(|lines|, i requires 0 <= i < |lines| => ReadLine(lines[i]))
  }

  /** The table a file loads to: one record per line, in order, or the error
      of the first line that fails. */
  function LoadAll(lines: seq<string>): Result<seq<CompanyRecord>, LoadError>
  {
    Collect(ReadLines(lines))
  }

  /** A load succeeds exactly when every line reads, and then holds one
      record per line, record `i` read from line `i`. */
  lemma LoadAllMeaning(lines: seq<string>)
    ensures LoadAll(lines).Ok? <==> forall i :: 0 <= i < |lines| ==> ReadLine(lines[i]).Ok?
    ensures LoadAll(lines).Ok? ==> |LoadAll(lines).value| == |lines|
    ensures LoadAll(lines).Ok? ==>
      forall i :: 0 <= i < |lines| ==> ReadLine(lines[i]) == Ok(LoadAll(lines).value[i])
  {
    var rs := ReadLines(lines);
    assert forall i :: 0 <= i < |lines| ==> rs[i] == ReadLine(lines[i]);
  }

  /** A failed load reports the error of its first failing line. */
  lemma LoadAllReportsFirstFailure(lines: seq<string>, i: nat)
    requires i < |lines| && ReadLine(lines[i]).Err?
    requires forall j :: 0 <= j < i ==> ReadLine(lines[j]).Ok?
    ensures LoadAll(lines) == Err(ReadLine(lines[i]).error)
  {
    var rs := ReadLines(lines);
    assert forall j :: 0 <= j < |lines| ==> rs[j] == ReadLine(lines[j]);
    FirstFailureDecides(rs, i);
  }

  /** `LoadCsv`: the loop over the file's lines. */
  method LoadCsv(lines: seq<string>) returns (r: Result<seq<CompanyRecord>, LoadError>)
    ensures r == LoadAll(lines)
  {
    ghost var rs := ReadLines(lines);
    var records: seq<CompanyRecord> := [];
    for i := 0 to |lines|
      invariant Collect(rs[..i]) == Ok(records)
    {
      var fields := Csv.ParseCsvLine(lines[i]);
      var record := AssembleRecord(fields);
      assert rs[i] == record;
      assert rs[..i + 1][..i] == rs[..i];
      if record.Err? {
        FailedPrefixDecides(rs, i + 1);
        return Err(record.error);
      }
      records := records + [record.value];
    }
    assert rs[..|lines|] == rs;
    return Ok(records);
  }

  /** Every record in a loaded table is one the record writer can put back
      into a line. */
  lemma LoadedAreLoadable(lines: seq<string>)
    requires LoadAll(lines).Ok?
    ensures forall rec :: rec in LoadAll(lines).value ==> Loadable(rec)
  {
    var table := LoadAll(lines).value;
    LoadAllMeaning(lines);
    forall rec | rec in table
      ensures Loadable(rec)
    {
      var i :| 0 <= i < |table| && table[i] == rec;
      AssembledIsLoadable(lines[i]);
    }
  }

  /** The file a table is written to: one formatted line per record. */
  function FormatFile(table: seq<CompanyRecord>): (lines: seq<string>)
    requires forall rec :: rec in table ==> Loadable(rec)
    ensures |lines| == |table|
  {
    seq(|table|, i requires 0 <= i < |table| => FormatLine(table[i]))
  }

  /** Writing a table of loadable records and loading the file gives the
      table back, order included. */
  lemma FileRoundTrip(table: seq<CompanyRecord>)
    requires forall rec :: rec in table ==> Loadable(rec)
    ensures LoadAll(FormatFile(table)) == Ok(table)
  {
    var lines := FormatFile(table);
    var rs := ReadLines(lines);
    forall i | 0 <= i < |rs|
      ensures rs[i] == Ok(table[i])
    {
      RecordRoundTrip(table[i]);
    }
    CollectValues(rs, table);
  }
}
