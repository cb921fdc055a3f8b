# geOrchestra geodoc store, modelled in Dafny

This project models the document store of geOrchestra's mapfishapp
(`A_DocService`). The store saves, loads, lists and deletes "geodocs": XML
context documents such as WMC files. New geodocs live in the table
`mapfishapp.geodocs`. Older ones live as plain files in a legacy directory.
One naming scheme covers both backends. A name of exactly 42 characters is a
database name, and characters 6 to 37 are the row's key. Any other name is a
legacy file name.

Modules, one file each:

- `wrappers.dfy`, module `Wrappers`: `Option` (Java's null), `Result` and `Outcome` (exceptions).
- `hex.dfy`, module `Hex`: Java's `Integer.toHexString` and the loop that renders a 16-byte MD5 digest as a 32-character key.
- `address.dfy`, module `Address`: the external name `"geodoc" + hash + extension` and the length-based routing.
- `geodocs_table.dfy`, module `GeodocsTable`: the table as an object `Geodocs` holding a sequence of rows. Each SQL statement (count, select, update, delete, the listing query) is a function on that sequence.
- `listing.dfy`, module `Listing`: how a query result becomes the JSON entries of a listing.
- `doc_service.dfy`, module `DocService`: the class `DocStore`.

`DocStore` has the same mutable fields as the Java object: the current content
and name (`None` stands for null). The Java object holds no table, only a
connection pool to one database table that the stores of every format use,
each filtering on its own standard. The model gives each store a reference to
one `Geodocs` object, so stores constructed with the same `Geodocs` see each
other's saves, loads and deletes (`DocService.SaveSeenAcrossStores`). The
constructor fixes the following values:

- the file extension and the MIME type;
- the shared table;
- the legacy directory, a map from file name to content, or `None` when the directory does not exist;
- the format hooks `preSave`, `postLoad` and `extract`;
- two oracles: the pretty-printer and the MD5 digest.

The random salt and the clock are parameters of the methods that use them.

Behaviour of the code that the model keeps, although a caller might expect
otherwise:

- `deleteFile` never fails. Affecting a number of rows other than one is only logged. `DeleteFile` returns that condition as `mismatch`.
- `loadFile` wraps the not-found error in a `RuntimeException`; the model returns the cause itself (`NotFound` or `DirectoryMissing`).
- The routing test never checks the `geodoc` prefix. It also assumes a four-character extension: the literal `4` in `4 + 32 + DOC_PREFIX.length()`. A store with any other extension length saves rows it cannot load (`Address.ExternalNameWithOtherExtensionIsLegacy`).
- When `preSave` refuses a document, `_content` already holds the staged content.
- An empty extension makes `substring(1)` throw in `saveData` and `listFiles`. The model returns `BadExtension` there.

## Model

| member | source | states |
|---|---|---|
| `Hex.HexOf` | mapfishapp/src/main/java/org/georchestra/mapfishapp/ws/A_DocService.java:454 | the unsigned hex rendering used by `Integer.toHexString` is never empty and ends with the digit of `n % 16` |
| `Hex.HexOfLastTwo` | mapfishapp/src/main/java/org/georchestra/mapfishapp/ws/A_DocService.java:454 | a rendering of a number ≥ 16 has at least two digits, and the last two are `(n / 16) % 16` and `n % 16` |
| `Hex.HexOfLong` | mapfishapp/src/main/java/org/georchestra/mapfishapp/ws/A_DocService.java:454 | a number of at least 16^k renders to more than k characters: no digit is dropped |
| `Hex.NegativeByteHex` | mapfishapp/src/main/java/org/georchestra/mapfishapp/ws/A_DocService.java:454-459 | `Integer.toHexString` of a negative (sign-extended) byte has exactly eight characters, and its last two are the hex of `b & 0xff` |
| `Hex.TwoDigitByteHex` | mapfishapp/src/main/java/org/georchestra/mapfishapp/ws/A_DocService.java:454-459 | for a byte from 16 to 127, `Integer.toHexString` is exactly its two hex digits |
| `Hex.HexOfBounded` | mapfishapp/src/main/java/org/georchestra/mapfishapp/ws/A_DocService.java:454 | a number below 16^k renders to at most k characters, all lower-case hex |
| `Hex.ToHexString` | mapfishapp/src/main/java/org/georchestra/mapfishapp/ws/A_DocService.java:454 | `Integer.toHexString` of any 32-bit int has 1 to 8 lower-case hex characters, and the last is the low digit of the value read as unsigned |
| `Hex.ByteToHexString` | mapfishapp/src/main/java/org/georchestra/mapfishapp/ws/A_DocService.java:454-455 | `Integer.toHexString` of a byte has one character exactly for bytes 0 to 15, and then it is that digit; otherwise its last two characters render `b & 0xff` |
| `Hex.Octet` | mapfishapp/src/main/java/org/georchestra/mapfishapp/ws/A_DocService.java:454 | reading the signed byte as unsigned gives a value below 256: the byte itself when non-negative, the byte + 256 when negative |
| `Hex.ByteHex` | mapfishapp/src/main/java/org/georchestra/mapfishapp/ws/A_DocService.java:454-460 | one loop step (zero-pad one character, else keep the last two) yields exactly the two lower-case hex digits of `b & 0xff`, for every signed byte |
| `Hex.HexDigits` | mapfishapp/src/main/java/org/georchestra/mapfishapp/ws/A_DocService.java:453-462 | the reference rendering has twice as many characters as bytes, all in `[0-9a-f]` |
| `Hex.HexDigitsAt` | mapfishapp/src/main/java/org/georchestra/mapfishapp/ws/A_DocService.java:453-461 | characters `2i` and `2i+1` are the high and low hex digit of `digest[i] & 0xff` |
| `Hex.HexDigitsInjective` | mapfishapp/src/main/java/org/georchestra/mapfishapp/ws/A_DocService.java:453-462 | equal renderings of equal-length digests come from equal digests: the rendering loses no information |
| `Hex.Md5Hex` | mapfishapp/src/main/java/org/georchestra/mapfishapp/ws/A_DocService.java:446-462 | the digest loop (`Integer.toHexString`, pad or cut) returns exactly the reference rendering of the digest |
| `Hex.DigestKeyShape` | mapfishapp/src/main/java/org/georchestra/mapfishapp/ws/A_DocService.java:443-462 | a 16-byte MD5 digest renders to a key of exactly 32 characters, all lower-case hex |
| `Address.ExternalName` | mapfishapp/src/main/java/org/georchestra/mapfishapp/ws/A_DocService.java:219 | the returned name is the prefix `geodoc`, then the key, then the extension, and its length is the sum of their lengths |
| `Address.Route` | mapfishapp/src/main/java/org/georchestra/mapfishapp/ws/A_DocService.java:474-480 | a name goes to the database if and only if it has 42 characters, and then its key is the 32 characters at positions 6 to 37; any other name is used verbatim as a legacy file name |
| `Address.RouteOfExternalName` | mapfishapp/src/main/java/org/georchestra/mapfishapp/ws/A_DocService.java:527-528 | with a 32-character key and a 4-character extension, the name a save returns routes back to the database under the same key |
| `Address.ExternalNameWithOtherExtensionIsLegacy` | mapfishapp/src/main/java/org/georchestra/mapfishapp/ws/A_DocService.java:474 | with an extension of any other length, the saved name routes to the legacy directory instead |
| `Address.DatabaseNameIsExternalName` | mapfishapp/src/main/java/org/georchestra/mapfishapp/ws/A_DocService.java:219 | a database-routed name that starts with `geodoc` and ends with the extension is the external name of its own key (the other direction of the round trip) |
| `GeodocsTable.Geodocs.constructor` | mapfishapp/src/main/java/org/georchestra/mapfishapp/ws/A_DocService.java:84-86 | the one table all stores share starts with the given rows |
| `GeodocsTable.CountHash` | mapfishapp/src/main/java/org/georchestra/mapfishapp/ws/A_DocService.java:478-485 | `count(*)` for a key is never more than the number of rows |
| `GeodocsTable.ContentOf` | mapfishapp/src/main/java/org/georchestra/mapfishapp/ws/A_DocService.java:531-538 | the content select, when it returns something, returns the content of the first row in table order that has the key |
| `GeodocsTable.FoundIffCounted` | mapfishapp/src/main/java/org/georchestra/mapfishapp/ws/A_DocService.java:476-492 | `count(*) > 0` for a key holds exactly when the content select returns a row, which holds exactly when some row has that key |
| `GeodocsTable.ContentOfIsARow` | mapfishapp/src/main/java/org/georchestra/mapfishapp/ws/A_DocService.java:531-538 | the content the select returns is the content of a row with the requested key |
| `GeodocsTable.ContentOfFreshRow` | mapfishapp/src/main/java/org/georchestra/mapfishapp/ws/A_DocService.java:531-538 | after inserting a row under a key no other row has, the select under that key returns that row's content |
| `GeodocsTable.Touch` | mapfishapp/src/main/java/org/georchestra/mapfishapp/ws/A_DocService.java:540-545 | the access-statistics UPDATE keeps the number of rows |
| `GeodocsTable.TouchAt` | mapfishapp/src/main/java/org/georchestra/mapfishapp/ws/A_DocService.java:540-545 | the access update keeps the number of rows; each row with the key gets `access_count + 1` and `last_access = now`; every other row and column is unchanged |
| `GeodocsTable.TouchKeepsLookups` | mapfishapp/src/main/java/org/georchestra/mapfishapp/ws/A_DocService.java:540-545 | the access update changes neither the content found under any key nor the count of rows with that key |
| `GeodocsTable.TouchKeepsHashesWellFormed` | mapfishapp/src/main/java/org/georchestra/mapfishapp/ws/A_DocService.java:540-545 | the access update preserves the table invariant that every key is 32 lower-case hex characters |
| `GeodocsTable.CountOwned` | mapfishapp/src/main/java/org/georchestra/mapfishapp/ws/A_DocService.java:309 | the delete's affected-row count is never more than the number of rows |
| `GeodocsTable.Delete` | mapfishapp/src/main/java/org/georchestra/mapfishapp/ws/A_DocService.java:304-309 | the DELETE never adds rows and leaves no row that matches both the key and the owner |
| `GeodocsTable.DeleteKeepsExactlyOthers` | mapfishapp/src/main/java/org/georchestra/mapfishapp/ws/A_DocService.java:304-307 | a row survives the delete if and only if it does not match both the key and the owner; other users' rows with the same key survive |
| `GeodocsTable.DeleteRemovesCounted` | mapfishapp/src/main/java/org/georchestra/mapfishapp/ws/A_DocService.java:309 | the delete removes exactly as many rows as it reports affected |
| `GeodocsTable.Filter` | mapfishapp/src/main/java/org/georchestra/mapfishapp/ws/A_DocService.java:262-266 | the WHERE clause never adds rows, and every row it keeps has the store's standard and the user |
| `GeodocsTable.Select` | mapfishapp/src/main/java/org/georchestra/mapfishapp/ws/A_DocService.java:262-266 | the listing query is newest first, is a permutation of the filtered rows, and holds only rows of the standard and the user |
| `GeodocsTable.FilterCounts` | mapfishapp/src/main/java/org/georchestra/mapfishapp/ws/A_DocService.java:262-266 | the `WHERE standard = ? AND username = ?` filter keeps each matching row with its multiplicity and drops every other row |
| `GeodocsTable.InsertNewestFirst` | mapfishapp/src/main/java/org/georchestra/mapfishapp/ws/A_DocService.java:263 | inserting into a newest-first sequence keeps it newest first and adds exactly that row |
| `GeodocsTable.SortNewestFirst` | mapfishapp/src/main/java/org/georchestra/mapfishapp/ws/A_DocService.java:263 | `ORDER BY created_at DESC` yields a permutation of its input, sorted newest first |
| `GeodocsTable.SelectIsSortedFilter` | mapfishapp/src/main/java/org/georchestra/mapfishapp/ws/A_DocService.java:262-266 | the listing query returns exactly the rows of the given standard and owner, with their multiplicities, newest first |
| `Listing.CommonFields` | mapfishapp/src/main/java/org/georchestra/mapfishapp/ws/A_DocService.java:271-275 | every entry starts with exactly the keys `hash`, `created_at`, `last_access` and `access_count`, and `hash` is the row's key |
| `Listing.EntryOf` | mapfishapp/src/main/java/org/georchestra/mapfishapp/ws/A_DocService.java:287-291 | an entry has the common keys and the extracted keys; an extracted value overwrites a common key of the same name; other common values stay |
| `Listing.Entries` | mapfishapp/src/main/java/org/georchestra/mapfishapp/ws/A_DocService.java:268-293 | the loop yields at most one entry per query row, and every entry carries the four common keys |
| `Listing.EntriesOfKept` | mapfishapp/src/main/java/org/georchestra/mapfishapp/ws/A_DocService.java:268-293 | the i-th entry is built from the i-th row whose document parses, merged with what the hook extracted from it |
| `Listing.KeptOfConcat` | mapfishapp/src/main/java/org/georchestra/mapfishapp/ws/A_DocService.java:279-286 | the parsable rows of two consecutive stretches of the result are those of each stretch in turn: skipping never stops the loop |
| `Listing.SkippedRowDropsOnlyItself` | mapfishapp/src/main/java/org/georchestra/mapfishapp/ws/A_DocService.java:279-286 | a row whose extraction fails is omitted, and every row before and after it is processed as if it were not there |
| `Listing.KeptIsParsingRows` | mapfishapp/src/main/java/org/georchestra/mapfishapp/ws/A_DocService.java:279-292 | a row is listed exactly as often as it occurs in the query result if its document parses, and never otherwise |
| `Listing.KeptKeepsOrder` | mapfishapp/src/main/java/org/georchestra/mapfishapp/ws/A_DocService.java:268-293 | the listed rows keep the order of the query result (they are a subsequence of it) |
| `Listing.KeptNewestFirst` | mapfishapp/src/main/java/org/georchestra/mapfishapp/ws/A_DocService.java:262-293 | when the query result is newest first, so are the listed rows |
| `Listing.KeptWhenAllParse` | mapfishapp/src/main/java/org/georchestra/mapfishapp/ws/A_DocService.java:268-293 | when every document parses, every query row is listed, in order |
| `Listing.ListingOfTable` | mapfishapp/src/main/java/org/georchestra/mapfishapp/ws/A_DocService.java:258-300 | a listing has one entry per parsable row of the store's standard and the user, as many as the table holds, newest first, each entry built from its row and its extracted fields |
| `DocService.BaseHooks` | mapfishapp/src/main/java/org/georchestra/mapfishapp/ws/A_DocService.java:369-430 | the base class's hooks: `preSave` and `postLoad` change nothing and fail on nothing, and extraction yields an empty object |
| `DocService.Staged` | mapfishapp/src/main/java/org/georchestra/mapfishapp/ws/A_DocService.java:175-185 | the content a save keeps before `preSave` is the pretty-printed document, or the raw data when pretty-printing fails |
| `DocService.BaseHooksKeepName` | mapfishapp/src/main/java/org/georchestra/mapfishapp/ws/A_DocService.java:378-379 | the base class's `postLoad` keeps the loaded name |
| `DocService.IsFileExist` | mapfishapp/src/main/java/org/georchestra/mapfishapp/ws/A_DocService.java:472-516 | fails exactly for a legacy name when the directory is missing; otherwise a database name exists if and only if a row has its key, and a legacy name exists if and only if the directory has a file of that name |
| `DocService.FetchContent` | mapfishapp/src/main/java/org/georchestra/mapfishapp/ws/A_DocService.java:524-597 | what a load reads is either `""`, or the content of a row with the name's key, or the content of the legacy file of that name |
| `DocService.AccessedRows` | mapfishapp/src/main/java/org/georchestra/mapfishapp/ws/A_DocService.java:524-549 | a load keeps the number of rows and changes no column except `last_access` and `access_count`, which never decreases |
| `DocService.ExistingContentIsStored` | mapfishapp/src/main/java/org/georchestra/mapfishapp/ws/A_DocService.java:524-597 | for an existing document, the content a load reads is that of a row with its key, or that of the legacy file |
| `DocService.SaveThenLoad` | mapfishapp/src/main/java/org/georchestra/mapfishapp/ws/A_DocService.java:207-219 | a row saved under a fresh key and named with a 4-character extension exists under that name, loads with its stored content, and counts one access |
| `DocService.EveryRowReachableByName` | mapfishapp/src/main/java/org/georchestra/mapfishapp/ws/A_DocService.java:474-492 | with a 4-character extension, every row of a table whose keys are 32 hex characters routes back to the database under its key and is found to exist |
| `DocService.LoadCountsOneAccess` | mapfishapp/src/main/java/org/georchestra/mapfishapp/ws/A_DocService.java:540-545 | a database load keeps the number of rows; each row with the key gets one more access and `last_access = now`; its content is unchanged |
| `DocService.DocStore.constructor` | mapfishapp/src/main/java/org/georchestra/mapfishapp/ws/A_DocService.java:147-153 | a new store has the given extension, MIME type, directory and shared table, and no current name or content |
| `DocService.DocStore.SaveData` | mapfishapp/src/main/java/org/georchestra/mapfishapp/ws/A_DocService.java:173-220 | stores the pretty-printed data, or the raw data when it cannot be parsed, then runs `preSave`. On success it appends exactly one row: owner, extension minus its first character, content, key = hex MD5 of content + salt. Existing rows are unchanged. It returns `geodoc` + key + extension. A `preSave` failure leaves the table unchanged. Key-format invariant preserved. With a 4-character extension, the returned name routes to the new row and exists |
| `DocService.DocStore.LoadContent` | mapfishapp/src/main/java/org/georchestra/mapfishapp/ws/A_DocService.java:524-597 | returns the first row's content for the key (or `""`) and bumps the access statistics of the rows with that key; a legacy name returns the file's content (or `""`) and leaves the table alone; the key-format invariant is preserved |
| `DocService.DocStore.LoadFile` | mapfishapp/src/main/java/org/georchestra/mapfishapp/ws/A_DocService.java:229-247 | a missing document (or a missing directory) fails and changes nothing. Otherwise the name and the read content become current, then `postLoad` may replace them or fail. On success with a name-keeping hook, the current name is the requested one. The key-format invariant is preserved |
| `DocService.DocStore.ListFiles` | mapfishapp/src/main/java/org/georchestra/mapfishapp/ws/A_DocService.java:258-300 | the loop over the query result returns exactly the entries `Listing.ListingOfTable` describes; an empty extension is an error |
| `DocService.DocStore.DeleteFile` | mapfishapp/src/main/java/org/georchestra/mapfishapp/ws/A_DocService.java:302-317 | removes exactly the rows with the key and the owner, keeps the key-format invariant, and reports (without failing) when the number removed is not 1 |
| `DocService.DocStore.GetContent` | mapfishapp/src/main/java/org/georchestra/mapfishapp/ws/A_DocService.java:338-343 | fails with a usage error exactly while the content is null, and returns it otherwise |
| `DocService.DocStore.GetName` | mapfishapp/src/main/java/org/georchestra/mapfishapp/ws/A_DocService.java:351-356 | fails with a usage error exactly while the name is null, and returns it otherwise |
| `DocService.SaveSeenAcrossStores` | mapfishapp/src/main/java/org/georchestra/mapfishapp/ws/A_DocService.java:84-86 | stores sharing one table see each other's saves: a document saved through one exists for the other |

## Left out

- Database failures: the in-memory table never fails. In the source a `SQLException` is fatal in `saveData`, `isFileExist` and `loadContent`, and only logged in `listFiles` and `deleteFile`. Connection handling and the SQL text are not modelled.
- The MD5 computation itself (RFC 1321) and `NoSuchAlgorithmException`: `md5` is an oracle returning 16 signed bytes.
- `java.util.Random` and `Double.toString`: the salt is a parameter of `SaveData`.
- JDOM pretty-printing in `indentData`: `indent` is an oracle that returns a string or fails.
- `isDocumentValid`: W3C XML Schema validation with a network fetch of the schema. A format that validates in `preSave` is represented by `preSave` returning `Rejected`.
- Legacy file I/O: the byte-reading loop, read errors and file-size checks. The directory is a map from file name to content, and a missing file reads as `""`.
- `setTempDirectory`/`mkdirs`: the directory, or its absence, is given at construction.
- `setPgPool`: there is no connection pool.
- The wall clock `now()`: an abstract natural-number clock.
- Column defaults: the INSERT sets four columns only, and the table's defaults are not part of the source. The model takes `created_at = now`, `last_access = now` and `access_count = 0`.
- Timestamp text: `getString` on a timestamp is rendered as the decimal of the abstract instant.
- JSON: values are strings, and `put` of a null value (which removes a key) is not modelled.
- Hooks: `preSave`, `postLoad` and `extractsStandardSpecificEntries` are Java methods that read and write the object. Here they are functions from content, or from name and content, to a result.
- `getMIMEType`: the constant field `mimeType`, with no accessor member.
- Ties in `ORDER BY created_at DESC`: SQL leaves their order open. The model keeps table order. The proved properties (sorted, permutation) hold for any order.
- Several rows with one key: the content select takes whichever row SQL returns first; the model takes the first in table order. No uniqueness check exists, so `DocService.SaveThenLoad` requires a fresh key.
- `DocService.DocStore.LoadFile`: in the source the not-found and missing-directory errors reach the caller wrapped in a `RuntimeException`. The model returns the cause directly.
- Names and contents are sequences of Unicode code points, while Java's `length()` and `substring` count UTF-16 code units. A name with characters outside the Basic Multilingual Plane can therefore route differently. For example, 41 BMP characters followed by U+1F600 is 43 units long in Java and goes to the legacy branch, but it has 42 code points here and goes to the database.
- Concurrent loads racing on `access_count`: concurrency is not modelled.
- `console/src/main/java/org/georchestra/console/dao/AdvancedDelegationDao.java` is not part of this model. It is pool configuration and DAO plumbing outside the store.
