/** The relational table `mapfishapp.geodocs` as an in-memory sequence of rows,
    and each SQL statement the document store issues as a function on it. */
module GeodocsTable {
  import opened Wrappers
  import Hex

  /** One row of the table. Instants come from an abstract clock. */
  datatype Row = Row(
    username: string,
    standard: string,
    content: string,
    hash: string,
    createdAt: nat,
    lastAccess: nat,
    accessCount: nat)

  /** Every key in the table is a 32-character lower-case hex string. */
  ghost predicate HashesWellFormed(rows: seq<Row>) {
    forall r :: r in rows ==> |r.hash| == 32 && forall k :: 0 <= k < 32 ==> Hex.IsHexChar(r.hash[k])
  }

  /** The table itself, one object that every document store holds a
      reference to: a save through one store is seen by all the others. */
  class Geodocs {
    var rows: seq<Row>

    constructor (rows: seq<Row>)
      ensures this.rows == rows
    {
      this.rows := rows;
    }
  }

  /** `SELECT count(*) ... WHERE file_hash = ?` */
  function CountHash(rows: seq<Row>, hash: string): (n: nat)
    ensures n <= |rows|
  {
    if rows == [] then 0
    else (if rows[0].hash == hash then 1 else 0) + CountHash(rows[1..], hash)
  }

  /** `SELECT raw_file_content ... WHERE file_hash = ?`, first row only;
      None when no row has that key. */
  function ContentOf(rows: seq<Row>, hash: string): (found: Option<string>)
    ensures found.Some? ==>
              exists i :: 0 <= i < |rows| && rows[i].hash == hash && rows[i].content == found.value &&
                          forall j :: 0 <= j < i ==> rows[j].hash != hash
  {
    if rows == [] then None
    else if rows[0].hash == hash then Some(rows[0].content)
    else
      var rest := ContentOf(rows[1..], hash);
      if rest.Some? then
        var i :| 0 <= i < |rows[1..]| && rows[1..][i].hash == hash && rows[1..][i].content == rest.value &&
                 forall j :: 0 <= j < i ==> rows[1..][j].hash != hash;
        assert rows[i + 1] == rows[1..][i];
        assert forall j :: 0 < j < i + 1 ==> rows[j] == rows[1..][j - 1];
        rest
      else
        rest
  }

  /** A row is found by key exactly when the count is positive and exactly
      when a content is returned for it. */
  lemma {:induction false} FoundIffCounted(rows: seq<Row>, hash: string)
    ensures CountHash(rows, hash) > 0 <==> ContentOf(rows, hash).Some?
    ensures ContentOf(rows, hash).Some? <==> exists r :: r in rows && r.hash == hash
  {
    if rows != [] {
      FoundIffCounted(rows[1..], hash);
      assert forall r :: r in rows <==> r == rows[0] || r in rows[1..];
    }
  }

  /** The content returned for a key is that of a row with this key. */
  lemma {:induction false} ContentOfIsARow(rows: seq<Row>, hash: string)
    requires ContentOf(rows, hash).Some?
    ensures exists r :: r in rows && r.hash == hash && r.content == ContentOf(rows, hash).value
  {
    if rows[0].hash != hash {
      ContentOfIsARow(rows[1..], hash);
      var r :| r in rows[1..] && r.hash == hash && r.content == ContentOf(rows, hash).value;
      assert r in rows;
    }
  }

  /** A row appended under a key no other row has is the one found under it. */
  lemma {:induction false} ContentOfFreshRow(rows: seq<Row>, row: Row)
    requires forall r :: r in rows ==> r.hash != row.hash
    ensures ContentOf(rows + [row], row.hash) == Some(row.content)
  {
    if rows == [] {
      assert rows + [row] == [row];
    } else {
      assert (rows + [row])[1..] == rows[1..] + [row];
      ContentOfFreshRow(rows[1..], row);
    }
  }

  /** `UPDATE ... SET last_access = now(), access_count = access_count + 1
      WHERE file_hash = ?` */
  function Touch(rows: seq<Row>, hash: string, now: nat): (out: seq<Row>)
    ensures |out| == |rows|
  {
    if rows == [] then []
    else
      var head := if rows[0].hash == hash
        then rows[0].(lastAccess := now, accessCount := rows[0].accessCount + 1)
        else rows[0];
      [head] + Touch(rows[1..], hash, now)
  }

  /** The update counts one more access on each row with the key and stamps
      it; every other row, and every other column, is left as it was. */
  lemma {:induction false} TouchAt(rows: seq<Row>, hash: string, now: nat)
    ensures |Touch(rows, hash, now)| == |rows|
    ensures forall i :: 0 <= i < |rows| ==>
      Touch(rows, hash, now)[i] ==
        if rows[i].hash == hash
        then rows[i].(lastAccess := now, accessCount := rows[i].accessCount + 1)
        else rows[i]
  {
    if rows != [] {
      TouchAt(rows[1..], hash, now);
    }
  }

  /** The update changes no key and no content, so later lookups see the same. */
  lemma {:induction false} TouchKeepsLookups(rows: seq<Row>, hash: string, now: nat, key: string)
    ensures ContentOf(Touch(rows, hash, now), key) == ContentOf(rows, key)
    ensures CountHash(Touch(rows, hash, now), key) == CountHash(rows, key)
  {
    if rows != [] {
      TouchKeepsLookups(rows[1..], hash, now, key);
    }
  }

  lemma TouchKeepsHashesWellFormed(rows: seq<Row>, hash: string, now: nat)
    ensures HashesWellFormed(rows) ==> HashesWellFormed(Touch(rows, hash, now))
  {
    if HashesWellFormed(rows) {
      TouchAt(rows, hash, now);
      forall r | r in Touch(rows, hash, now)
        ensures |r.hash| == 32 && forall k :: 0 <= k < 32 ==> Hex.IsHexChar(r.hash[k])
      {
        var i :| 0 <= i < |rows| && Touch(rows, hash, now)[i] == r;
        assert rows[i] in rows;
      }
    }
  }

  /** The rows `DELETE ... WHERE file_hash = ? AND username = ?` hits. */
  predicate Owned(r: Row, hash: string, username: string) {
    r.hash == hash && r.username == username
  }

  /** The affected-row count of the delete. */
  function CountOwned(rows: seq<Row>, hash: string, username: string): (n: nat)
    ensures n <= |rows|
  {
    if rows == [] then 0
    else (if Owned(rows[0], hash, username) then 1 else 0) + CountOwned(rows[1..], hash, username)
  }

  /** `DELETE ... WHERE file_hash = ? AND username = ?`, in table order. */
  function Delete(rows: seq<Row>, hash: string, username: string): (out: seq<Row>)
    ensures |out| <= |rows|
    ensures forall i :: 0 <= i < |out| ==> !Owned(out[i], hash, username)
  {
    if rows == [] then []
    else if Owned(rows[0], hash, username) then Delete(rows[1..], hash, username)
    else [rows[0]] + Delete(rows[1..], hash, username)
  }

  /** A row survives the delete if and only if it does not have both the key
      and the owner; in particular rows of other users with the same key stay. */
  lemma {:induction false} DeleteKeepsExactlyOthers(rows: seq<Row>, hash: string, username: string)
    ensures forall r :: r in Delete(rows, hash, username) <==> r in rows && !Owned(r, hash, username)
  {
    if rows != [] {
      DeleteKeepsExactlyOthers(rows[1..], hash, username);
      assert forall r :: r in rows <==> r == rows[0] || r in rows[1..];
    }
  }

  /** The delete removes as many rows as it affects, no more and no fewer. */
  lemma {:induction false} DeleteRemovesCounted(rows: seq<Row>, hash: string, username: string)
    ensures |Delete(rows, hash, username)| + CountOwned(rows, hash, username) == |rows|
  {
    if rows != [] {
      DeleteRemovesCounted(rows[1..], hash, username);
    }
  }

  /** Rows that the listing query selects. */
  predicate Matches(r: Row, standard: string, username: string) {
    r.standard == standard && r.username == username
  }

  /** `WHERE standard = ? AND username = ?`, in table order. */
  function Filter(rows: seq<Row>, standard: string, username: string): (out: seq<Row>)
    ensures |out| <= |rows|
    ensures forall i :: 0 <= i < |out| ==> Matches(out[i], standard, username)
  {
    if rows == [] then []
    else if Matches(rows[0], standard, username) then [rows[0]] + Filter(rows[1..], standard, username)
    else Filter(rows[1..], standard, username)
  }

  /** The filter keeps each matching row as often as the table has it and
      drops every other row. */
  lemma {:induction false} FilterCounts(rows: seq<Row>, standard: string, username: string)
    ensures forall r :: multiset(Filter(rows, standard, username))[r] ==
                        if Matches(r, standard, username) then multiset(rows)[r] else 0
  {
    if rows != [] {
      FilterCounts(rows[1..], standard, username);
      assert rows == [rows[0]] + rows[1..];
    }
  }

  ghost predicate SortedNewestFirst(s: seq<Row>) {
    forall i, j :: 0 <= i < j < |s| ==> s[i].createdAt >= s[j].createdAt
  }

  /** Inserts `r` before the first row that is not newer than it. */
  function InsertNewestFirst(r: Row, s: seq<Row>): (out: seq<Row>)
    requires SortedNewestFirst(s)
    ensures SortedNewestFirst(out)
    ensures multiset(out) == multiset(s) + multiset{r}
    ensures |out| > 0 && (out[0] == r || (|s| > 0 && out[0] == s[0]))
  {
    if s == [] || r.createdAt >= s[0].createdAt then
      [r] + s
    else
      var rest := InsertNewestFirst(r, s[1..]);
      assert s == [s[0]] + s[1..];
      [s[0]] + rest
  }

  /** `ORDER BY created_at DESC`: a permutation of its input, newest first.
      Rows created at the same instant keep their table order. */
  function SortNewestFirst(s: seq<Row>): (out: seq<Row>)
    ensures SortedNewestFirst(out)
    ensures multiset(out) == multiset(s)
  {
    if s == [] then []
    else
      assert s == [s[0]] + s[1..];
      InsertNewestFirst(s[0], SortNewestFirst(s[1..]))
  }

  /** The listing query: `WHERE standard = ? AND username = ? ORDER BY created_at DESC`. */
  function Select(rows: seq<Row>, standard: string, username: string): (out: seq<Row>)
    ensures SortedNewestFirst(out)
    ensures multiset(out) == multiset(Filter(rows, standard, username))
    ensures forall i :: 0 <= i < |out| ==> Matches(out[i], standard, username)
  {
    var filtered := Filter(rows, standard, username);
    var sorted := SortNewestFirst(filtered);
    assert forall i :: 0 <= i < |sorted| ==> sorted[i] in multiset(filtered);
    sorted
  }

  /** The listing query returns each row of the given standard and owner,
      as often as the table holds it, and nothing else, newest first. */
  lemma SelectIsSortedFilter(rows: seq<Row>, standard: string, username: string)
    ensures SortedNewestFirst(Select(rows, standard, username))
    ensures forall r :: multiset(Select(rows, standard, username))[r] ==
                        if Matches(r, standard, username) then multiset(rows)[r] else 0
  {
    FilterCounts(rows, standard, username);
  }
}
