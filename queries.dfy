/** The two lookups over the loaded table. Both are `FirstOrDefault` scans:
    the first record in table order that satisfies the condition, or nothing. */
module Queries {
  import opened Wrappers
  import opened Text
  import opened Records

  /** `FirstOrDefault` as a position: the first index whose element satisfies
      `p`, or `None` when no element does. */
  function FirstWhere<T>(s: seq<T>, p: T -> bool): (r: Option<nat>)
    ensures r.Some? ==> r.value < |s| && p(s[r.value])
    ensures r.Some? ==> forall j :: 0 <= j < r.value ==> !p(s[j])
    ensures r.None? <==> forall j :: 0 <= j < |s| ==> !p(s[j])
    decreases |s|
  {
    if s == [] then None
    else if p(s[0]) then Some(0)
    else match FirstWhere(s[1..], p)
      case None => None
      case Some(k) => Some(k + 1)
  }

  /** Two conditions that agree on every element find the same element. */
  lemma {:induction false} FirstWhereAgrees<T>(s: seq<T>, p: T -> bool, q: T -> bool)
    requires forall i :: 0 <= i < |s| ==> p(s[i]) == q(s[i])
    ensures FirstWhere(s, p) == FirstWhere(s, q)
    decreases |s|
  {
    if s != [] {
      assert forall i :: 0 <= i < |s| - 1 ==> s[1..][i] == s[i + 1];
      FirstWhereAgrees(s[1..], p, q);
    }
  }

  /** The condition of `/find/{company_text}`: the ticker is non-empty and
      equals the text once both are upper-cased, or the name is non-empty and
      its upper-cased form contains the upper-cased text. */
  predicate MatchesText(c: CompanyRecord, text: string)
  {
    || (c.ticker != [] && Upper(c.ticker) == Upper(text))
    || (c.name != [] && Contains(Upper(c.name), Upper(text)))
  }

  /** The first record, in table order, that matches `text`. */
  function FindByText(table: seq<CompanyRecord>, text: string): (r: Option<CompanyRecord>)
    ensures r.None? <==> forall i :: 0 <= i < |table| ==> !MatchesText(table[i], text)
    ensures r.Some? ==> exists i :: (0 <= i < |table| && table[i] == r.value
      && MatchesText(table[i], text)
      && forall j :: 0 <= j < i ==> !MatchesText(table[j], text))
  {
    match FirstWhere(table, c => MatchesText(c, text))
    case None => None
    case Some(i) => Some(table[i])
  }

  /** The first record, in table order, whose id is `id`. */
  function FindById(table: seq<CompanyRecord>, id: int): (r: Option<CompanyRecord>)
    ensures r.None? <==> forall i :: 0 <= i < |table| ==> table[i].id != id
    ensures r.Some? ==> exists i :: (0 <= i < |table| && table[i] == r.value
      && table[i].id == id
      && forall j :: 0 <= j < i ==> table[j].id != id)
  {
    match FirstWhere(table, (c: CompanyRecord) => c.id == id)
    case None => None
    case Some(i) => Some(table[i])
  }

  /** Texts that upper-case alike find the same record: the lookup does not
      see case. */
  lemma FindByTextIgnoresCase(table: seq<CompanyRecord>, a: string, b: string)
    requires Upper(a) == Upper(b)
    ensures FindByText(table, a) == FindByText(table, b)
  {
    FirstWhereAgrees(table, c => MatchesText(c, a), c => MatchesText(c, b));
  }

  /** In particular a text finds what its upper-cased form finds. */
  lemma FindByUpperText(table: seq<CompanyRecord>, text: string)
    ensures FindByText(table, text) == FindByText(table, Upper(text))
  {
    UpperIdempotent(text);
    FindByTextIgnoresCase(table, text, Upper(text));
  }

  /** A record is found by its own id; when ids are unique it is that very
      record that comes back. */
  lemma FindByIdPresent(table: seq<CompanyRecord>, i: nat)
    requires i < |table|
    requires forall j, k :: 0 <= j < k < |table| ==> table[j].id != table[k].id
    ensures FindById(table, table[i].id) == Some(table[i])
  {
    var r := FindById(table, table[i].id);
    assert r.Some?;
    var k :| 0 <= k < |table| && table[k] == r.value && table[k].id == table[i].id
      && forall j :: 0 <= j < k ==> table[j].id != table[i].id;
    assert k == i;
  }

  /** The empty text is contained in every name, so it finds the first record
      with a non-empty name. */
  lemma EmptyTextFindsFirstNamed(table: seq<CompanyRecord>, i: nat)
    requires i < |table| && table[i].name != []
    requires forall j :: 0 <= j < i ==> table[j].name == []
    ensures FindByText(table, []) == Some(table[i])
  {
    assert Contains(Upper(table[i].name), []);
    var r := FindByText(table, []);
    var k :| 0 <= k < |table| && table[k] == r.value && MatchesText(table[k], [])
      && forall j :: 0 <= j < k ==> !MatchesText(table[j], []);
    assert k == i;
  }

  /** A ticker stored as `"aapl"` is found by the text `"AAPL"`, whatever the
      record's name. */
  lemma TickerExample(rec: CompanyRecord)
    requires rec.ticker == "aapl"
    ensures FindByText([rec], "AAPL") == Some(rec)
  {
    assert Upper("aapl") == "AAPL";
    assert Upper("AAPL") == "AAPL";
    assert MatchesText([rec][0], "AAPL");
  }

  /** A name `"Fintech"` contains the text `"tech"` once both are
      upper-cased. */
  lemma NameMatchesExample(rec: CompanyRecord)
    requires rec.name == "Fintech"
    ensures MatchesText(rec, "tech")
  {
    var hay, needle := Upper(rec.name), Upper("tech");
    assert needle == "TECH" by {
      assert needle[0] == 'T' && needle[1] == 'E' && needle[2] == 'C' && needle[3] == 'H';
    }
    assert OccursAt(hay, "TECH", 3) by {
      assert hay[3] == 'T' && hay[4] == 'E' && hay[5] == 'C' && hay[6] == 'H';
      assert hay[3..7] == "TECH";
    }
    ContainsAt(hay, "TECH");
  }

  /** The text `"tech"` finds the first record whose name holds `Tech` in
      any case, whatever the records after it hold. */
  lemma NameExample(first: CompanyRecord, second: CompanyRecord)
    requires first.name == "Fintech"
    ensures FindByText([first, second], "tech") == Some(first)
  {
    NameMatchesExample(first);
    assert [first, second][0] == first;
  }
}
