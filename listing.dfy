/** The entries that listing a user's documents produces from the rows the
    listing query returns. */
module Listing {
  import opened Wrappers
  import opened GeodocsTable

  /** A JSON object with string values. */
  type Entry = map<string, string>

  /** The format-specific hook that parses a stored document and returns the
      fields to add to its entry, or fails. */
  type Extractor = string -> Option<Entry>

  function DecimalDigit(d: nat): char
    requires d < 10
  {
    ('0' as int + d) as char
  }

  /** How a number column reads as a string. */
  function Decimal(n: nat): string {
    if n < 10 then [DecimalDigit(n)] else Decimal(n / 10) + [DecimalDigit(n % 10)]
  }

  /** The fields every standard has. */
  function CommonFields(r: Row): (e: Entry)
    ensures e.Keys == {"hash", "created_at", "last_access", "access_count"}
    ensures e["hash"] == r.hash
  {
    map["hash" := r.hash,
        "created_at" := Decimal(r.createdAt),
        "last_access" := Decimal(r.lastAccess),
        "access_count" := Decimal(r.accessCount)]
  }

  /** The common fields with the extracted ones put over them. */
  function EntryOf(r: Row, extracted: Entry): (e: Entry)
    ensures e.Keys == CommonFields(r).Keys + extracted.Keys
    ensures forall k :: k in extracted ==> e[k] == extracted[k]
    ensures forall k :: k in CommonFields(r) && k !in extracted ==> e[k] == CommonFields(r)[k]
  {
    CommonFields(r) + extracted
  }

  /** The rows of a query result whose document the hook can parse, in order. */
  function Kept(q: seq<Row>, extract: Extractor): seq<Row> {
    if q == [] then []
    else
      var front := Kept(q[..|q| - 1], extract);
      if extract(q[|q| - 1].content).Some? then front + [q[|q| - 1]] else front
  }

  /** The listing built from a query result, one row at a time: a row whose
      document cannot be parsed is skipped and the next one is processed. */
  function Entries(q: seq<Row>, extract: Extractor): (out: seq<Entry>)
    ensures |out| <= |q|
    ensures forall i :: 0 <= i < |out| ==>
              {"hash", "created_at", "last_access", "access_count"} <= out[i].Keys
  {
    if q == [] then []
    else
      var front := Entries(q[..|q| - 1], extract);
      var last := q[|q| - 1];
      match extract(last.content)
      case None => front
      case Some(f) => front + [EntryOf(last, f)]
  }

  /** Entry i of the listing is built from kept row i and what the hook
      extracted from it. */
  lemma {:induction false} EntriesOfKept(q: seq<Row>, extract: Extractor)
    ensures |Entries(q, extract)| == |Kept(q, extract)|
    ensures forall i :: 0 <= i < |Kept(q, extract)| ==>
              extract(Kept(q, extract)[i].content).Some? &&
              Entries(q, extract)[i] ==
                EntryOf(Kept(q, extract)[i], extract(Kept(q, extract)[i].content).value)
  {
    if q != [] {
      EntriesOfKept(q[..|q| - 1], extract);
    }
  }

  /** A failing row in the middle does not stop what comes after it: the
      kept rows of two consecutive parts are those of each part in turn. */
  lemma {:induction false} KeptOfConcat(a: seq<Row>, b: seq<Row>, extract: Extractor)
    ensures Kept(a + b, extract) == Kept(a, extract) + Kept(b, extract)
  {
    if b == [] {
      assert a + b == a;
    } else {
      assert (a + b)[..|a + b| - 1] == a + b[..|b| - 1];
      KeptOfConcat(a, b[..|b| - 1], extract);
    }
  }

  /** A row that cannot be parsed contributes nothing, and only it is lost. */
  lemma SkippedRowDropsOnlyItself(a: seq<Row>, r: Row, b: seq<Row>, extract: Extractor)
    requires extract(r.content).None?
    ensures Kept(a + [r] + b, extract) == Kept(a, extract) + Kept(b, extract)
  {
    KeptOfConcat(a + [r], b, extract);
    KeptOfConcat(a, [r], extract);
    assert Kept([r], extract) == [] by {
      assert [r][..0] == [];
    }
  }

  /** The kept rows are the query rows that parse, in their order, with the
      same multiplicities; every parsing row is kept. */
  lemma {:induction false} KeptIsParsingRows(q: seq<Row>, extract: Extractor)
    ensures forall r :: multiset(Kept(q, extract))[r] ==
                        if extract(r.content).Some? then multiset(q)[r] else 0
  {
    if q != [] {
      var front := q[..|q| - 1];
      KeptIsParsingRows(front, extract);
      assert q == front + [q[|q| - 1]];
    }
  }

  /** The kept rows stay in query order: they are a subsequence of it. */
  lemma {:induction false} KeptKeepsOrder(q: seq<Row>, extract: Extractor)
    ensures exists idx: seq<nat> ::
      |idx| == |Kept(q, extract)| &&
      (forall i :: 0 <= i < |idx| ==> idx[i] < |q| && Kept(q, extract)[i] == q[idx[i]]) &&
      (forall i, j :: 0 <= i < j < |idx| ==> idx[i] < idx[j])
  {
    if q != [] {
      var front := q[..|q| - 1];
      KeptKeepsOrder(front, extract);
      var idx: seq<nat> :| |idx| == |Kept(front, extract)| &&
        (forall i :: 0 <= i < |idx| ==> idx[i] < |front| && Kept(front, extract)[i] == front[idx[i]]) &&
        (forall i, j :: 0 <= i < j < |idx| ==> idx[i] < idx[j]);
      if extract(q[|q| - 1].content).Some? {
        var idx' := idx + [|q| - 1];
        assert forall i :: 0 <= i < |idx'| ==> idx'[i] < |q| && Kept(q, extract)[i] == q[idx'[i]];
      } else {
        assert forall i :: 0 <= i < |idx| ==> idx[i] < |q| && Kept(q, extract)[i] == q[idx[i]];
      }
    }
  }

  /** Kept rows of a newest-first query result are newest first too. */
  lemma KeptNewestFirst(q: seq<Row>, extract: Extractor)
    requires SortedNewestFirst(q)
    ensures SortedNewestFirst(Kept(q, extract))
  {
    KeptKeepsOrder(q, extract);
    var idx: seq<nat> :| |idx| == |Kept(q, extract)| &&
      (forall i :: 0 <= i < |idx| ==> idx[i] < |q| && Kept(q, extract)[i] == q[idx[i]]) &&
      (forall i, j :: 0 <= i < j < |idx| ==> idx[i] < idx[j]);
  }

  /** When every document parses, there is one entry per query row. */
  lemma {:induction false} KeptWhenAllParse(q: seq<Row>, extract: Extractor)
    requires forall i :: 0 <= i < |q| ==> extract(q[i].content).Some?
    ensures Kept(q, extract) == q
  {
    if q != [] {
      KeptWhenAllParse(q[..|q| - 1], extract);
      assert q == q[..|q| - 1] + [q[|q| - 1]];
    }
  }

  /** What listing a user's documents of a standard yields: one entry per
      parsable row of that standard and owner (as many as the table holds),
      newest first, each built from its row and the fields extracted from it. */
  lemma ListingOfTable(rows: seq<Row>, standard: string, username: string, extract: Extractor)
    ensures var kept := Kept(Select(rows, standard, username), extract);
      && SortedNewestFirst(kept)
      && (forall r :: multiset(kept)[r] ==
                      if Matches(r, standard, username) && extract(r.content).Some? then multiset(rows)[r] else 0)
      && |Entries(Select(rows, standard, username), extract)| == |kept|
      && (forall i :: 0 <= i < |kept| ==>
            Entries(Select(rows, standard, username), extract)[i] ==
              EntryOf(kept[i], extract(kept[i].content).value))
  {
    var q := Select(rows, standard, username);
    SelectIsSortedFilter(rows, standard, username);
    KeptNewestFirst(q, extract);
    KeptIsParsingRows(q, extract);
    EntriesOfKept(q, extract);
  }
}
