/** The line splitter of the company loader (`ParseCsvLine`): a two-state
    machine, plain or inside quotes, that walks the line once. It reads the
    comma-separated format of RFC 4180, section 2, loosely: every `"` only
    toggles the state and is dropped, a doubled `""` is no escape, and
    unbalanced quoting is never an error. */
module Csv {
  import opened Text

  /** What the loop of `ParseCsvLine` holds between two characters: the
      finished fields, the field being built and the quote flag. */
  datatype ScanState = ScanState(fields: seq<string>, current: string, inQuotes: bool)

  const Start := ScanState([], [], false)

  /** One iteration of the loop on character `ch`. */
  function Step(st: ScanState, ch: char): ScanState
  {
    if ch == ',' && !st.inQuotes then ScanState(st.fields + [st.current], [], st.inQuotes)
    else if ch == '"' then st.(inQuotes := !st.inQuotes)
    else st.(current := st.current + [ch])
  }

  /** The state after feeding `s` to the loop, character by character. */
  function Run(st: ScanState, s: string): ScanState
    decreases |s|
  {
    if s == [] then st else Step(Run(st, s[..|s| - 1]), s[|s| - 1])
  }

  /** The fields `ParseCsvLine` returns: the finished ones and then the last,
      which is pushed even when empty. */
  function Fields(line: string): seq<string>
  {
    var st := Run(Start, line);
    st.fields + [st.current]
  }

  /** Commas of `s` that the splitter meets outside quotes, that is, with an
      even number of `"` before them. */
  function UnquotedCommas(s: string): nat
  {
    if s == [] then 0
    else
      var p := s[..|s| - 1];
      UnquotedCommas(p) + (if s[|s| - 1] == ',' && Count(p, '"') % 2 == 0 then 1 else 0)
  }

  /** Splits `line` into its fields. */
  method ParseCsvLine(line: string) returns (fields: seq<string>)
    ensures fields == Fields(line)
    ensures |fields| == UnquotedCommas(line) + 1
    ensures forall i :: 0 <= i < |fields| ==> '"' !in fields[i]
    ensures Join(fields, ',') == Remove(line, '"')
  {
    fields := [];
    var currentField: string := [];
    var inQuotes := false;
    for i := 0 to |line|
      invariant Run(Start, line[..i]) == ScanState(fields, currentField, inQuotes)
    {
      var ch := line[i];
      assert line[..i + 1][..i] == line[..i];
      if ch == ',' && !inQuotes {
        fields := fields + [currentField];
        currentField := [];
      } else if ch == '"' {
        inQuotes := !inQuotes;
      } else {
        currentField := currentField + [ch];
      }
    }
    assert line[..|line|] == line;
    fields := fields + [currentField];
    FieldCount(line);
    FieldsHaveNoQuotes(line);
    JoinRestoresLine(line);
  }

  // ---------------------------------------------------------------------
  // What the loop keeps invariant, one fact per lemma

  /** The quote flag records whether an odd number of `"` has been read. */
  lemma {:induction false} QuoteFlagIsParity(s: string)
    ensures Run(Start, s).inQuotes <==> Count(s, '"') % 2 == 1
  {
    if s != [] {
      QuoteFlagIsParity(s[..|s| - 1]);
    }
  }

  /** Every comma met outside quotes finishes exactly one field. */
  lemma {:induction false} FinishedFieldCount(s: string)
    ensures |Run(Start, s).fields| == UnquotedCommas(s)
  {
    if s != [] {
      FinishedFieldCount(s[..|s| - 1]);
      QuoteFlagIsParity(s[..|s| - 1]);
    }
  }

  /** The splitter returns one field more than the commas it meets outside
      quotes; in particular it never returns an empty list. */
  lemma FieldCount(line: string)
    ensures |Fields(line)| == UnquotedCommas(line) + 1
    ensures |Fields(line)| >= 1
  {
    FinishedFieldCount(line);
  }

  /** No finished field and not the field being built holds a `"`. */
  lemma {:induction false} RunHasNoQuotes(s: string)
    ensures forall i :: 0 <= i < |Run(Start, s).fields| ==> '"' !in Run(Start, s).fields[i]
    ensures '"' !in Run(Start, s).current
  {
    if s != [] {
      RunHasNoQuotes(s[..|s| - 1]);
    }
  }

  /** No output field ever contains a `"`. */
  lemma FieldsHaveNoQuotes(line: string)
    ensures forall i :: 0 <= i < |Fields(line)| ==> '"' !in Fields(line)[i]
  {
    RunHasNoQuotes(line);
  }

  lemma JoinAppendEmpty(parts: seq<string>, sep: char)
    requires |parts| >= 1
    ensures Join(parts + [[]], sep) == Join(parts, sep) + [sep]
  {
    assert (parts + [[]])[..|parts|] == parts;
  }

  lemma JoinExtendLast(fields: seq<string>, current: string, ch: char, sep: char)
    ensures Join(fields + [current + [ch]], sep) == Join(fields + [current], sep) + [ch]
  {
    if |fields| > 0 {
      assert (fields + [current + [ch]])[..|fields|] == fields;
      assert (fields + [current])[..|fields|] == fields;
    }
  }

  /** Joining the finished fields and the current one with `,` gives back
      what has been read so far, less its quotes. */
  lemma {:induction false} RunJoinsToInput(s: string)
    ensures var st := Run(Start, s); Join(st.fields + [st.current], ',') == Remove(s, '"')
  {
    if s != [] {
      var p, ch := s[..|s| - 1], s[|s| - 1];
      RunJoinsToInput(p);
      var st := Run(Start, p);
      assert s == p + [ch];
      RemoveAppend(p, [ch], '"');
      if ch == ',' && !st.inQuotes {
        JoinAppendEmpty(st.fields + [st.current], ',');
        assert st.fields + [st.current] + [[]] == (st.fields + [st.current]) + [[]];
      } else if ch != '"' {
        JoinExtendLast(st.fields, st.current, ch, ',');
      }
    }
  }

  /** Round trip: the fields joined with `,` are the line with every `"`
      removed. */
  lemma JoinRestoresLine(line: string)
    ensures Join(Fields(line), ',') == Remove(line, '"')
  {
    RunJoinsToInput(line);
  }

  // ---------------------------------------------------------------------
  // Lines without quotes

  /** Without quotes the splitter never enters a quoted region and never puts
      a comma into a field. */
  lemma {:induction false} UnquotedRun(s: string)
    requires '"' !in s
    ensures !Run(Start, s).inQuotes
    ensures forall i :: 0 <= i < |Run(Start, s).fields| ==> ',' !in Run(Start, s).fields[i]
    ensures ',' !in Run(Start, s).current
    ensures UnquotedCommas(s) == Count(s, ',')
  {
    if s != [] {
      var p := s[..|s| - 1];
      assert '"' !in p by {
        forall c | c in p ensures c != '"' {
          assert c in s;
        }
      }
      UnquotedRun(p);
      CountAbsent(p, '"');
    }
  }

  /** A line with `k` commas and no `"` splits into exactly `k + 1` fields,
      none of which contains a comma: the split is exactly at the commas. */
  lemma UnquotedLineSplitsAtCommas(line: string)
    requires '"' !in line
    ensures |Fields(line)| == Count(line, ',') + 1
    ensures forall i :: 0 <= i < |Fields(line)| ==> ',' !in Fields(line)[i]
    ensures Join(Fields(line), ',') == line
  {
    UnquotedRun(line);
    FieldCount(line);
    JoinRestoresLine(line);
    RemoveAbsent(line, '"');
  }

  // ---------------------------------------------------------------------
  // Quoted fields

  /** Feeding `a` and then `b` is feeding `a + b`. */
  lemma {:induction false} RunAppend(st: ScanState, a: string, b: string)
    ensures Run(st, a + b) == Run(Run(st, a), b)
    decreases |b|
  {
    if b == [] {
      assert a + b == a;
    } else {
      var b' := b[..|b| - 1];
      assert (a + b)[..|a + b| - 1] == a + b';
      RunAppend(st, a, b');
    }
  }

  /** Inside quotes every character but `"` joins the current field, commas
      included. */
  lemma {:induction false} RunInsideQuotes(st: ScanState, f: string)
    requires st.inQuotes && '"' !in f
    ensures Run(st, f) == st.(current := st.current + f)
  {
    if f != [] {
      var f' := f[..|f| - 1];
      assert '"' !in f' by {
        forall c | c in f' ensures c != '"' {
          assert c in f;
        }
      }
      RunInsideQuotes(st, f');
      assert st.current + f' + [f[|f| - 1]] == st.current + f;
    }
  }

  /** Outside quotes every character but `"` and `,` joins the current
      field. */
  lemma {:induction false} RunBare(st: ScanState, f: string)
    requires !st.inQuotes && '"' !in f && ',' !in f
    ensures Run(st, f) == st.(current := st.current + f)
  {
    if f != [] {
      var f' := f[..|f| - 1];
      assert '"' !in f' && ',' !in f' by {
        forall c | c in f' ensures c != '"' && c != ',' {
          assert c in f;
        }
      }
      RunBare(st, f');
      assert st.current + f' + [f[|f| - 1]] == st.current + f;
    }
  }

  /** `f` wrapped in a pair of `"`. */
  function Quote(f: string): string
  {
    ['"'] + f + ['"']
  }

  /** A field as a writer puts it on the line: in quotes or bare. */
  function Render(f: string, quoted: bool): string
  {
    if quoted then Quote(f) else f
  }

  /** A line made of the given fields joined with `,`, field `i` wrapped in
      quotes exactly when `quoted[i]` holds. */
  function MixedLine(fs: seq<string>, quoted: seq<bool>): string
    requires |quoted| == |fs|
  {
    Join(seq(|fs|, i requires 0 <= i < |fs| => Render(fs[i], quoted[i])), ',')
  }

  /** The fields can be written that way: none holds a `"`, and a field left
      bare holds no `,` either. */
  predicate Writable(fs: seq<string>, quoted: seq<bool>)
  {
    && |quoted| == |fs|
    && forall i :: 0 <= i < |fs| ==> '"' !in fs[i] && (!quoted[i] ==> ',' !in fs[i])
  }

  /** Quote flags for `n` fields, all set. */
  function AllQuoted(n: nat): (q: seq<bool>)
    ensures |q| == n && forall i :: 0 <= i < n ==> q[i]
  {
    seq(n, i => true)
  }

  /** A line made of the given fields, each wrapped in quotes. */
  function QuotedLine(fs: seq<string>): string
  {
    MixedLine(fs, AllQuoted(|fs|))
  }

  /** A field written either way is read into the current field whole. */
  lemma RenderedField(st: ScanState, f: string, quoted: bool)
    requires !st.inQuotes && '"' !in f && (!quoted ==> ',' !in f)
    ensures Run(st, Render(f, quoted)) == st.(current := st.current + f)
  {
    if quoted {
      RunAppend(st, ['"'] + f, ['"']);
      RunAppend(st, ['"'], f);
      RunInsideQuotes(st.(inQuotes := true), f);
    } else {
      RunBare(st, f);
    }
  }

  /** Dropping the last field keeps the rest writable. */
  lemma WritablePrefix(fs: seq<string>, quoted: seq<bool>)
    requires |fs| >= 1 && Writable(fs, quoted)
    ensures Writable(fs[..|fs| - 1], quoted[..|fs| - 1])
  {
    var n := |fs|;
    var fs', quoted' := fs[..n - 1], quoted[..n - 1];
    forall i | 0 <= i < n - 1
      ensures '"' !in fs'[i] && (!quoted'[i] ==> ',' !in fs'[i])
    {
      assert fs'[i] == fs[i] && quoted'[i] == quoted[i];
    }
  }

  /** A line of two or more fields is the line of all but the last, a `,`,
      and the last field as written. */
  lemma MixedLineSnoc(fs: seq<string>, quoted: seq<bool>)
    requires |fs| >= 2 && |quoted| == |fs|
    ensures var n := |fs|;
      MixedLine(fs, quoted) == MixedLine(fs[..n - 1], quoted[..n - 1]) + [','] + Render(fs[n - 1], quoted[n - 1])
  {
    var n := |fs|;
    var rs := seq(n, i requires 0 <= i < n => Render(fs[i], quoted[i]));
    var fs', quoted' := fs[..n - 1], quoted[..n - 1];
    var rs' := seq(n - 1, i requires 0 <= i < n - 1 => Render(fs'[i], quoted'[i]));
    assert rs[..n - 1] == rs';
  }

  lemma {:induction false} RunMixedLine(fs: seq<string>, quoted: seq<bool>)
    requires |fs| >= 1 && Writable(fs, quoted)
    ensures Run(Start, MixedLine(fs, quoted)) == ScanState(fs[..|fs| - 1], fs[|fs| - 1], false)
  {
    var n := |fs|;
    if n == 1 {
      RenderedField(Start, fs[0], quoted[0]);
      assert MixedLine(fs, quoted) == Render(fs[0], quoted[0]);
    } else {
      var fs', quoted' := fs[..n - 1], quoted[..n - 1];
      WritablePrefix(fs, quoted);
      RunMixedLine(fs', quoted');
      var front, last := MixedLine(fs', quoted'), Render(fs[n - 1], quoted[n - 1]);
      MixedLineSnoc(fs, quoted);
      RunAppend(Start, front + [','], last);
      RunAppend(Start, front, [',']);
      assert fs'[..n - 2] + [fs'[n - 2]] == fs';
      RenderedField(ScanState(fs', [], false), fs[n - 1], quoted[n - 1]);
    }
  }

  /** The splitter undoes the writer: fields joined with `,`, each quoted or
      left bare, split back into exactly those fields, provided no field holds
      a `"` and every bare field is free of commas. */
  lemma MixedLineRoundTrip(fs: seq<string>, quoted: seq<bool>)
    requires |fs| >= 1 && Writable(fs, quoted)
    ensures Fields(MixedLine(fs, quoted)) == fs
  {
    RunMixedLine(fs, quoted);
    assert fs[..|fs| - 1] + [fs[|fs| - 1]] == fs;
  }

  /** Quoting every field and joining with `,` is undone by the splitter,
      whatever commas the fields hold, provided none holds a `"`. */
  lemma QuotedLineRoundTrip(fs: seq<string>)
    requires |fs| >= 1
    requires forall i :: 0 <= i < |fs| ==> '"' !in fs[i]
    ensures Fields(QuotedLine(fs)) == fs
  {
    MixedLineRoundTrip(fs, AllQuoted(|fs|));
  }

  /** A quoted field with a comma inside stays one field, quotes removed. */
  lemma QuotedCommaDoesNotSplit()
    ensures Fields("\"a,b\"") == ["a,b"]
  {
    assert QuotedLine(["a,b"]) == "\"a,b\"";
    QuotedLineRoundTrip(["a,b"]);
  }

  /** A line that quotes only the field holding a comma: `a,"b,c"` splits
      after `a` and nowhere else. The line is a parameter so that the solver
      does not unfold the splitter over the literal. */
  lemma PartlyQuotedExample(line: string)
    requires line == "a,\"b,c\""
    ensures Fields(line) == ["a", "b,c"]
  {
    var fs, quoted := ["a", "b,c"], [false, true];
    var rs := seq(2, i requires 0 <= i < 2 => Render(fs[i], quoted[i]));
    assert rs[0] == "a" && rs[1] == Quote("b,c") == "\"b,c\"";
    assert rs[..1] == ["a"];
    assert Join(rs, ',') == "a" + [','] + "\"b,c\"";
    assert MixedLine(fs, quoted) == line;
    MixedLineRoundTrip(fs, quoted);
  }
}
