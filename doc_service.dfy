/** The document store: saves a geodoc as a new table row, loads a geodoc
    from the table or from the legacy directory into the store's current
    name and content, lists a user's geodocs of the store's standard and
    deletes a user's geodoc. Format-specific behaviour comes from hooks. */
module DocService {
  import opened Wrappers
  import Hex
  import opened Address
  import opened GeodocsTable
  import opened Listing

  datatype DocError =
    | NotFound               // the requested document does not exist (HTTP 404)
    | DirectoryMissing       // the legacy directory does not exist
    | BadExtension           // the file extension is empty, so it has no standard
    | Rejected(message: string)  // a hook refused the document
    | Usage                  // an accessor called before a successful load

  /** The name and content a load makes current. */
  datatype Loaded = Loaded(name: string, content: string)

  /** What a concrete document format overrides. */
  datatype Hooks = Hooks(
    preSave: string -> Result<string, DocError>,
    postLoad: Loaded -> Result<Loaded, DocError>,
    extract: Extractor)

  /** The base class's own hooks: saving and loading change nothing and no
      field is extracted. */
  function BaseHooks(): (h: Hooks)
    ensures forall c :: h.preSave(c) == Success(c)
    ensures forall l :: h.postLoad(l) == Success(l)
    ensures forall c :: h.extract(c) == Some(map[])
  {
    Hooks(c => Success(c), l => Success(l), c => Some(map[]))
  }

  ghost predicate PostLoadKeepsName(hooks: Hooks) {
    forall l :: hooks.postLoad(l).Success? ==> hooks.postLoad(l).value.name == l.name
  }

  lemma BaseHooksKeepName()
    ensures PostLoadKeepsName(BaseHooks())
  {
  }

  /** The content a save stores before its hook runs: the pretty-printed
      document, or the data itself when it cannot be parsed. */
  function Staged(indent: string -> Option<string>, data: string): (staged: string)
    ensures indent(data).Some? ==> staged == indent(data).value
    ensures indent(data).None? ==> staged == data
  {
    match indent(data)
    case Some(pretty) => pretty
    case None => data
  }

  /** Whether a named document exists: a row with its key in the table, or a
      file of that name in the legacy directory, which must itself exist. */
  function IsFileExist(rows: seq<Row>, directory: Option<map<string, string>>, fileName: string): (r: Result<bool, DocError>)
    ensures r.Failure? <==> Route(fileName).LegacyFile? && directory.None?
    ensures r.Failure? ==> r.error == DirectoryMissing
    ensures r.Success? && Route(fileName).Database? ==>
              (r.value <==> exists row :: row in rows && row.hash == Route(fileName).hash)
    ensures r.Success? && Route(fileName).LegacyFile? ==> (r.value <==> fileName in directory.value)
  {
    match Route(fileName)
    case Database(hash) =>
      FoundIffCounted(rows, hash);
      Success(CountHash(rows, hash) > 0)
    case LegacyFile(f) =>
      if directory.None? then Failure(DirectoryMissing) else Success(f in directory.value)
  }

  /** The content a load reads: the first row with the key, or the file of
      that name; the empty string when there is none. */
  function FetchContent(rows: seq<Row>, directory: Option<map<string, string>>, fileName: string): (c: string)
    ensures c == "" ||
            (Route(fileName).Database? &&
               exists row :: row in rows && row.hash == Route(fileName).hash && row.content == c) ||
            (Route(fileName).LegacyFile? &&
               directory.Some? && fileName in directory.value && directory.value[fileName] == c)
  {
    match Route(fileName)
    case Database(hash) =>
      if ContentOf(rows, hash).Some? then
        ContentOfIsARow(rows, hash);
        ContentOf(rows, hash).value
      else ""
    case LegacyFile(f) => if directory.Some? && f in directory.value then directory.value[f] else ""
  }

  /** The table after a load: access statistics bumped on the database branch. */
  function AccessedRows(rows: seq<Row>, fileName: string, now: nat): (out: seq<Row>)
    ensures |out| == |rows|
    ensures forall i :: 0 <= i < |rows| ==>
              out[i] == rows[i].(lastAccess := out[i].lastAccess, accessCount := out[i].accessCount)
    ensures forall i :: 0 <= i < |rows| ==> out[i].accessCount >= rows[i].accessCount
  {
    match Route(fileName)
    case Database(hash) =>
      TouchAt(rows, hash, now);
      Touch(rows, hash, now)
    case LegacyFile(_) => rows
  }

  /** A document that exists yields content that is really stored under its
      name: the content of a row with its key, or the file's content. */
  lemma ExistingContentIsStored(rows: seq<Row>, directory: Option<map<string, string>>, fileName: string)
    requires IsFileExist(rows, directory, fileName) == Success(true)
    ensures Route(fileName).Database? ==>
              exists row :: row in rows && row.hash == Route(fileName).hash &&
                            row.content == FetchContent(rows, directory, fileName)
    ensures Route(fileName).LegacyFile? ==>
              FetchContent(rows, directory, fileName) == directory.value[fileName]
  {
    if Route(fileName).Database? {
      FoundIffCounted(rows, Route(fileName).hash);
      ContentOfIsARow(rows, Route(fileName).hash);
    }
  }

  /** Saving and then loading: a row stored under a fresh key, named with a
      4-character extension, exists under that name and loads with the
      content it was stored with; the load counts one access on it. */
  lemma SaveThenLoad(rows: seq<Row>, directory: Option<map<string, string>>, row: Row, extension: string, now: nat)
    requires |row.hash| == HashLength && |extension| == 4
    requires forall r :: r in rows ==> r.hash != row.hash
    ensures IsFileExist(rows + [row], directory, ExternalName(row.hash, extension)) == Success(true)
    ensures FetchContent(rows + [row], directory, ExternalName(row.hash, extension)) == row.content
    ensures |AccessedRows(rows + [row], ExternalName(row.hash, extension), now)| == |rows| + 1
    ensures AccessedRows(rows + [row], ExternalName(row.hash, extension), now)[|rows|] ==
              row.(lastAccess := now, accessCount := row.accessCount + 1)
  {
    RouteOfExternalName(row.hash, extension);
    ContentOfFreshRow(rows, row);
    FoundIffCounted(rows + [row], row.hash);
    TouchAt(rows + [row], row.hash, now);
  }

  /** A database load counts exactly one access on a row with the key, stamps
      it, and leaves its content alone. */
  lemma LoadCountsOneAccess(rows: seq<Row>, fileName: string, now: nat, i: nat)
    requires i < |rows| && Route(fileName).Database? && rows[i].hash == Route(fileName).hash
    ensures |AccessedRows(rows, fileName, now)| == |rows|
    ensures AccessedRows(rows, fileName, now)[i].accessCount == rows[i].accessCount + 1
    ensures AccessedRows(rows, fileName, now)[i].lastAccess == now
    ensures AccessedRows(rows, fileName, now)[i].content == rows[i].content
  {
    TouchAt(rows, Route(fileName).hash, now);
  }

  /** With a 4-character extension, every row of a table whose keys are well
      formed is reached again through the name a save would have returned. */
  lemma EveryRowReachableByName(rows: seq<Row>, directory: Option<map<string, string>>, extension: string)
    requires HashesWellFormed(rows) && |extension| == 4
    ensures forall row :: row in rows ==>
              && Route(ExternalName(row.hash, extension)) == Database(row.hash)
              && IsFileExist(rows, directory, ExternalName(row.hash, extension)) == Success(true)
  {
    forall row | row in rows
      ensures Route(ExternalName(row.hash, extension)) == Database(row.hash)
    {
      RouteOfExternalName(row.hash, extension);
    }
  }

  class DocStore {
    /** The dotted extension of the store's format, such as ".wmc". */
    const fileExtension: string
    const mimeType: string
    /** The legacy directory's files by name; None when it does not exist. */
    const directory: Option<map<string, string>>
    const hooks: Hooks
    /** Pretty-printing of an XML document; None when it cannot be parsed. */
    const indent: string -> Option<string>
    /** The MD5 digest of a string. */
    const md5: string -> Hex.Digest

    /** The table, shared by reference with the stores of other formats. */
    const table: Geodocs
    /** The current content and name; None stands for null. */
    var content: Option<string>
    var name: Option<string>

    constructor (fileExtension: string, mimeType: string, directory: Option<map<string, string>>,
                 hooks: Hooks, indent: string -> Option<string>, md5: string -> Hex.Digest, table: Geodocs)
      ensures this.fileExtension == fileExtension && this.mimeType == mimeType
      ensures this.directory == directory && this.table == table
      ensures this.hooks == hooks && this.indent == indent && this.md5 == md5
      ensures content.None? && name.None?
    {
      this.fileExtension := fileExtension;
      this.mimeType := mimeType;
      this.directory := directory;
      this.hooks := hooks;
      this.indent := indent;
      this.md5 := md5;
      this.table := table;
      content := None;
      name := None;
    }

    /** Stores `data` for `username` as a new row and returns its name. The
        key is the hex MD5 of the content followed by `salt`, the rendering of
        a fresh random number. */
    method SaveData(data: string, username: string, salt: string, now: nat) returns (r: Result<string, DocError>)
      modifies this`content, table
      ensures hooks.preSave(Staged(indent, data)).Failure? ==>
                && r == Failure(hooks.preSave(Staged(indent, data)).error)
                && content == Some(Staged(indent, data))
                && table.rows == old(table.rows)
      ensures hooks.preSave(Staged(indent, data)).Success? ==>
                var stored := hooks.preSave(Staged(indent, data)).value;
                var hash := Hex.HexDigits(md5(stored + salt));
                && content == Some(stored)
                && (|fileExtension| == 0 ==> r == Failure(BadExtension) && table.rows == old(table.rows))
                && (|fileExtension| > 0 ==>
                      && r == Success(ExternalName(hash, fileExtension))
                      && table.rows == old(table.rows) + [Row(username, fileExtension[1..], stored, hash, now, now, 0)])
      ensures HashesWellFormed(old(table.rows)) ==> HashesWellFormed(table.rows)
      ensures r.Success? && |fileExtension| == 4 ==>
                Route(r.value) == Database(table.rows[|table.rows| - 1].hash) &&
                IsFileExist(table.rows, directory, r.value) == Success(true)
    {
      content := Some(data);
      match indent(data) {
        case Some(pretty) => content := Some(pretty);
        case None => content := Some(data);
      }
      var checked := hooks.preSave(content.value);
      if checked.Failure? {
        return Failure(checked.error);
      }
      content := Some(checked.value);
      var hash := Hex.Md5Hex(md5(content.value + salt));
      if |fileExtension| == 0 {
        return Failure(BadExtension);
      }
      var standard := fileExtension[1..];
      var row := Row(username, standard, content.value, hash, now, now, 0);
      table.rows := table.rows + [row];
      r := Success(DocPrefix + hash + fileExtension);
      Hex.DigestKeyShape(md5(content.value + salt));
      if |fileExtension| == 4 {
        RouteOfExternalName(hash, fileExtension);
        assert row in table.rows;
      }
    }

    /** Reads the named document and, on the database branch, counts the
        access on every row with its key. */
    method LoadContent(fileName: string, now: nat) returns (c: string)
      modifies table
      ensures c == FetchContent(old(table.rows), directory, fileName)
      ensures table.rows == AccessedRows(old(table.rows), fileName, now)
      ensures HashesWellFormed(old(table.rows)) ==> HashesWellFormed(table.rows)
    {
      c := "";
      if |fileName| == DbNameLength {
        var hash := fileName[|DocPrefix|..|DocPrefix| + HashLength];
        var found := ContentOf(table.rows, hash);
        if found.Some? {
          c := found.value;
        }
        TouchKeepsHashesWellFormed(table.rows, hash, now);
        table.rows := Touch(table.rows, hash, now);
      } else if directory.Some? && fileName in directory.value {
        c := directory.value[fileName];
      }
    }

    /** Makes the named document current: fails, changing nothing, when it
        does not exist; otherwise sets the name, reads the content and runs
        the format's post-load hook, which may rename it or refuse it. */
    method LoadFile(fileName: string, now: nat) returns (r: Outcome<DocError>)
      modifies table, this`content, this`name
      ensures IsFileExist(old(table.rows), directory, fileName) == Failure(DirectoryMissing) ==>
                r == Fail(DirectoryMissing) && unchanged(this, table)
      ensures IsFileExist(old(table.rows), directory, fileName) == Success(false) ==>
                r == Fail(NotFound) && unchanged(this, table)
      ensures IsFileExist(old(table.rows), directory, fileName) == Success(true) ==>
                var loaded := Loaded(fileName, FetchContent(old(table.rows), directory, fileName));
                && table.rows == AccessedRows(old(table.rows), fileName, now)
                && (hooks.postLoad(loaded).Failure? ==>
                      r == Fail(hooks.postLoad(loaded).error) &&
                      name == Some(fileName) && content == Some(loaded.content))
                && (hooks.postLoad(loaded).Success? ==>
                      r == Pass &&
                      name == Some(hooks.postLoad(loaded).value.name) &&
                      content == Some(hooks.postLoad(loaded).value.content))
      ensures r.Pass? && PostLoadKeepsName(hooks) ==> name == Some(fileName)
      ensures HashesWellFormed(old(table.rows)) ==> HashesWellFormed(table.rows)
    {
      var present := IsFileExist(table.rows, directory, fileName);
      if present.Failure? {
        return Fail(present.error);
      }
      if !present.value {
        return Fail(NotFound);
      }
      name := Some(fileName);
      var c := LoadContent(fileName, now);
      content := Some(c);
      var post := hooks.postLoad(Loaded(name.value, content.value));
      if post.Failure? {
        return Fail(post.error);
      }
      name := Some(post.value.name);
      content := Some(post.value.content);
      r := Pass;
    }

    /** The user's documents of this store's standard, newest first, each with
        its common fields and whatever the format extracts from it; documents
        that cannot be parsed are left out. */
    method ListFiles(username: string) returns (r: Result<seq<Entry>, DocError>)
      ensures |fileExtension| == 0 ==> r == Failure(BadExtension)
      ensures |fileExtension| > 0 ==>
                r == Success(Entries(Select(table.rows, fileExtension[1..], username), hooks.extract))
    {
      if |fileExtension| == 0 {
        return Failure(BadExtension);
      }
      var q := Select(table.rows, fileExtension[1..], username);
      var res: seq<Entry> := [];
      var i := 0;
      while i < |q|
        invariant 0 <= i <= |q|
        invariant res == Entries(q[..i], hooks.extract)
      {
        assert q[..i + 1][..i] == q[..i];
        var extracted := hooks.extract(q[i].content);
        if extracted.Some? {
          var entry := CommonFields(q[i]);
          entry := entry + extracted.value;
          res := res + [entry];
        }
        i := i + 1;
      }
      assert q[..|q|] == q;
      r := Success(res);
    }

    /** Deletes the user's rows with the key. Affecting any number of rows
        other than one is only reported, as the log line `mismatch`. */
    method DeleteFile(hash: string, username: string) returns (mismatch: bool)
      modifies table
      ensures table.rows == Delete(old(table.rows), hash, username)
      ensures mismatch <==> CountOwned(old(table.rows), hash, username) != 1
      ensures HashesWellFormed(old(table.rows)) ==> HashesWellFormed(table.rows)
    {
      var affected := CountOwned(table.rows, hash, username);
      DeleteKeepsExactlyOthers(table.rows, hash, username);
      table.rows := Delete(table.rows, hash, username);
      mismatch := affected != 1;
    }

    /** The current content; a usage error before any load. */
    function GetContent(): (r: Result<string, DocError>)
      reads this
      ensures content.None? <==> r == Failure(Usage)
      ensures content.Some? ==> r == Success(content.value)
    {
      if content.None? then Failure(Usage) else Success(content.value)
    }

    /** The current name; a usage error before any load. */
    function GetName(): (r: Result<string, DocError>)
      reads this
      ensures name.None? <==> r == Failure(Usage)
      ensures name.Some? ==> r == Success(name.value)
    {
      if name.None? then Failure(Usage) else Success(name.value)
    }
  }

  /** Stores of different formats hold the same table: a document saved
      through one of them exists for every other store sharing the table. */
  method SaveSeenAcrossStores(a: DocStore, b: DocStore, data: string, username: string, salt: string, now: nat)
    returns (r: Result<string, DocError>)
    requires a.table == b.table && |a.fileExtension| == 4
    modifies a, a.table
    ensures r.Success? ==> IsFileExist(b.table.rows, b.directory, r.value) == Success(true)
  {
    r := a.SaveData(data, username, salt, now);
  }
}
