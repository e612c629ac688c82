# ampli-sync client core, modelled in Dafny

This project models the client side of the AmpliSync React Native example.
The model covers:

- **The push payload builder.** It scans the local SQLite database for rows that are not yet synchronised. It builds the `PushJsonRequest`, which is a list of per-table inserts and updates plus a list of tombstone deletions. It also builds the acknowledgement statements that run once the server has accepted the push. For updates, an acknowledgement clears `MergeUpdate` with a compare-and-clear. For deletions, it removes the tombstone from `MergeDelete`.
- **The pure helpers of the sync API client.** These are URL shaping under the `app/ampli-sync` prefix, the endpoint paths, the bearer header, the response status check, and the list of local database files.
- **The session validator.** It accepts a session read back from storage.
- **The database wrapper.** This covers query normalisation, row collection and batch mapping.
- **The database connection singleton.**

The modules are:

- `JsValues`: JavaScript values, plain objects as ordered property lists, `String(...)`, ASCII lower-casing and decimal text.
- `SeqOps`: `map`, `filter` and flattening over sequences.
- `Wrappers`: `Option`, `Result` and `Outcome`.
- `PushTypes`: the push request body.
- `PushJson`: the payload builder. It has three layers:
  - the string-level column-name parser;
  - the row projection;
  - the whole scan. The query function is modelled by `QueryAnswers`: for each of the four SQL queries the builder issues (catalog, unsynced rows, pending updates, tombstones), either the rows or the error the query rejects with. The properties of the payload are stated over the `Snapshot` of the rows.
- `SyncApi`: the API helpers.
- `SessionStorage`: `normalizeSession`.
- `Database`: `dbAll`, `dbExec` and `dbBatch`. They are written over the driver's `executeSql` and `sqlBatch`, which are function parameters.
- `DbConnection`: the module-level `db` handle. It is modelled as a `class` with one field.

The scan is also stated as literal imperative code. `PushJson.BuildPushJsonRequestFromDb`, `PushJson.ScanTables` and `PushJson.ScanTable` follow the loops of the source. `BuildPushJsonRequestFromDb` is proved equal to `PushJson.BuildOutcome`: the first rejected query in the order the source awaits them, or else the functional `Scan` of the returned rows. `ScanTables` is proved to give the first table rejection (`FirstTableFailure`), or else the change sets and acknowledgements of the scan (`ChangesOf`, `AcksOf`). `ScanTable` is proved to give one table's entry and acknowledgements (`TableEntry`, `TableAcks`). The properties of the payload are proved about `Scan`.

- **Widgets example.** Take a table `Widgets` that declares `RowId`, `name` and `MergeUpdate`, with one row `{RowId: null, name: "a"}`. It is sent as `{rowid: "null", name: "a"}`, not as `{name: "a"}`. `toRow` keeps every declared column except `MergeUpdate`. It renames a column spelled `rowid` in any letter case to `rowid`, and it encodes `null` as the string `"null"`. `PushJson.WidgetsRow` proves this.
- **Catalog filter.** The code filters the catalog rows only by a non-empty `tbl_name` other than `MergeDelete`. The model does the same. The catalog query itself keeps the tables whose SQL text matches `like '%RowId%'`. That is a substring test that ignores ASCII case, so a scanned table need not declare a `RowId` column. A table that mentions `RowId` only inside another name, such as `ParentRowId`, or in a comment, is scanned as well. The model receives the catalog answer as it is and assumes nothing about the columns of the scanned tables.

## Model

| member | source | states |
|---|---|---|
| PushJson.IndexOfKeyIgnoringCaseSpec | src/services/sync/formats/pushJson.ts:10-13 | The key search finds the first key whose lower-case form is the lower-cased name; it finds nothing exactly when no key matches. |
| PushJson.GetValueCaseInsensitiveSpec | src/services/sync/formats/pushJson.ts:6-16 | A non-object gives `undefined`. An own property with exactly that name wins. Otherwise the first property whose name matches ignoring case is read. With no match, the result is `undefined`. |
| PushJson.CaseInsensitiveLookupIgnoresCase | src/services/sync/formats/pushJson.ts:10-15 | Two names that differ only in letter case, and neither of which is an own key, read the same value. |
| PushJson.ToValue | src/services/sync/formats/pushJson.ts:18-28 | The result is always a string, a number or a boolean. `null` and `undefined` become the text `"null"`. Strings, numbers and booleans pass unchanged. Any other value becomes its `String(...)` text. |
| PushJson.ToValueIdempotent | src/services/sync/formats/pushJson.ts:18-28 | Encoding an encoded value changes nothing. |
| PushJson.ToValueKeepsText | src/services/sync/formats/pushJson.ts:18-28 | Encoding keeps the `String(...)` text of every value except `undefined`, which becomes `"null"`. |
| PushJson.IndexOfSpec | src/services/sync/formats/pushJson.ts:31 | The character search gives the first occurrence, or nothing exactly when the character is absent. |
| PushJson.IndexOfBound | src/services/sync/formats/pushJson.ts:31 | A position the search gives lies inside the text and holds the character. |
| PushJson.ColumnClauseIsFirst | src/services/sync/formats/pushJson.ts:31 | A match of `^[^(]+\(([^)]+)\)` begins its group after the first `(` and ends at the first `)` after it, so there is at most one match. |
| PushJson.FirstParensAreClause | src/services/sync/formats/pushJson.ts:31 | The first `(` and the first `)` after it, with something between them and the `(` not at the very start, form the matched clause. |
| PushJson.StripMatched | src/services/sync/formats/pushJson.ts:31 | When the text has a matched clause, the replacement keeps the inside of the parentheses followed by whatever comes after them. |
| PushJson.StripUnmatched | src/services/sync/formats/pushJson.ts:31 | Without a matched clause the text is left as it is. |
| PushJson.StripToColumnClauseSpec | src/services/sync/formats/pushJson.ts:31 | Both cases of `replace(/^[^(]+\(([^)]+)\)/, '$1')`. With a match, the prefix up to the clause's `)` is replaced by the clause and the rest is kept. Without one, the text is unchanged. No character is introduced. |
| PushJson.StripKeepsCharacters | src/services/sync/formats/pushJson.ts:31 | The replacement only removes characters. |
| PushJson.Split | src/services/sync/formats/pushJson.ts:31 | `split(',')` always gives at least one part. |
| PushJson.SplitNoSeparator | src/services/sync/formats/pushJson.ts:31 | No part contains the separator. |
| PushJson.SplitAvoids | src/services/sync/formats/pushJson.ts:31 | A character absent from the text is absent from every part. |
| PushJson.SplitJoin | src/services/sync/formats/pushJson.ts:31 | Joining the parts with the separator gives back the text, so nothing is lost by the split. |
| PushJson.TrimStartSpec | src/services/sync/formats/pushJson.ts:34-35 | Leading trim removes exactly the longest whitespace prefix. |
| PushJson.TrimEndSpec | src/services/sync/formats/pushJson.ts:34-35 | Trailing trim removes exactly the longest whitespace suffix. |
| PushJson.TrimSpec | src/services/sync/formats/pushJson.ts:34-35 | `trim()` introduces no character, and leaves a result that is empty or neither starts nor ends with whitespace. |
| PushJson.IndexOfFirst | src/services/sync/formats/pushJson.ts:37-38 | A first occurrence of the character is the position the search gives. |
| PushJson.RemoveFirstAt | src/services/sync/formats/pushJson.ts:37-38 | `replace('[', '')` cuts out the character at its first occurrence and keeps the text before and after it, in order. |
| PushJson.RemoveFirstLength | src/services/sync/formats/pushJson.ts:37-38 | Without the character the text is unchanged; with it, exactly one character goes. |
| PushJson.RemoveFirstKeeps | src/services/sync/formats/pushJson.ts:37-38 | The removal introduces no character. |
| PushJson.RemoveFirstSpec | src/services/sync/formats/pushJson.ts:37-38 | All of the above: the text is unchanged when the character is absent; otherwise it is the text before the first occurrence followed by the text after it. |
| PushJson.RemoveAllSpec | src/services/sync/formats/pushJson.ts:39 | `replace(/"/g, '')` keeps exactly the characters other than the removed one. |
| PushJson.RemoveAllOne | src/services/sync/formats/pushJson.ts:39 | A one-character text is emptied when it is the removed character and kept otherwise. |
| PushJson.RemoveAllAppend | src/services/sync/formats/pushJson.ts:39 | The removal from a concatenation is the concatenation of the removals. With the previous row, this fixes the order and the number of the characters that stay. |
| PushJson.ColumnNameSpec | src/services/sync/formats/pushJson.ts:33-40 | A column name taken from a clause has no space and no double quote, and every one of its characters comes from the clause. |
| PushJson.NamesOfSpec | src/services/sync/formats/pushJson.ts:33-41 | There are never more names than clauses. A string is kept exactly when it is the non-empty name of some clause. |
| PushJson.NamesOfOne | src/services/sync/formats/pushJson.ts:33-41 | One clause gives its name when that is non-empty, and nothing otherwise. |
| PushJson.NamesOfAppend | src/services/sync/formats/pushJson.ts:33-41 | The names of two consecutive clause lists follow one another. With the previous row, the names are one per clause with a non-empty name, in clause order. |
| PushJson.OpColumnNamesSpec | src/services/sync/formats/pushJson.ts:30-42 | A string is a declared column name exactly when it is the non-empty name of one of the comma-separated clauses of the stripped `CREATE TABLE` text. Every name is non-empty and has no space, no double quote and no comma. |
| PushJson.SetFieldOther | src/services/sync/formats/pushJson.ts:50 | Assigning a property leaves every other property's value as it was. |
| PushJson.SetFieldKeys | src/services/sync/formats/pushJson.ts:50 | Assigning keeps keys distinct, adds exactly the assigned key, and adds no other property. |
| PushJson.SetFieldSame | src/services/sync/formats/pushJson.ts:50 | After the assignment, the property reads the assigned value. |
| PushJson.SetFieldPlace | src/services/sync/formats/pushJson.ts:50 | A new key is appended after the existing fields. An existing key is overwritten in place, so every position keeps its key. |
| PushJson.SetFieldSpec | src/services/sync/formats/pushJson.ts:50 | All of the above together: `row[key] = value` as a JavaScript assignment does it on a plain object with insertion-ordered keys, covering the values, the key set and the key positions. |
| PushJson.ProjectRowShape | src/services/sync/formats/pushJson.ts:44-53 | The projected row has distinct keys. Its keys are exactly the output keys of the non-`MergeUpdate` columns. Every value is encoded. |
| PushJson.ToRow | src/services/sync/formats/pushJson.ts:44-53 | The loop over the columns builds the projected row. |
| PushJson.ProjectRowKeys | src/services/sync/formats/pushJson.ts:47-50 | No output key is a `MergeUpdate` column. Any key equal to `rowid` ignoring case is spelled `rowid`. Every `rowid` column yields `rowid`. Every other kept column yields its own name. |
| PushJson.ProjectRowValue | src/services/sync/formats/pushJson.ts:47-51 | A column that is last to write its output key leaves there the encoded case-insensitive read of the source row. |
| PushJson.SyncedTables | src/services/sync/formats/pushJson.ts:68-70 | The tables scanned are exactly the catalog entries with a non-empty name other than `MergeDelete`. |
| PushJson.SyncedTablesAppend | src/services/sync/formats/pushJson.ts:68-70 | The filter keeps catalog order across a concatenation. |
| PushJson.SyncedTablesOne | src/services/sync/formats/pushJson.ts:68-70 | One catalog entry is kept once when it is synced, and dropped otherwise. With the previous row, each synced entry is scanned exactly as often as the catalog holds it, in catalog order. |
| PushJson.ProjectAll | src/services/sync/formats/pushJson.ts:85 | The inserts of a table are its unsynced rows, each projected on the declared columns. |
| PushJson.ProjectUpdates | src/services/sync/formats/pushJson.ts:86-94 | One projected update per pending update row. Each row appends its compare-and-clear acknowledgement, in order. |
| PushJson.CollectTombstones | src/services/sync/formats/pushJson.ts:101-110 | One deletion and one tombstone removal per tombstone, in order. |
| PushJson.ScanTable | src/services/sync/formats/pushJson.ts:74-99 | One iteration of the table loop. It emits an entry exactly when the table has inserts or updates. It appends the acknowledgements of its updates whether or not an entry is emitted. |
| PushJson.ScanTables | src/services/sync/formats/pushJson.ts:74-99 | The table loop stops at the first table whose inserts or updates query rejects, with that error. Otherwise it returns the change sets and update acknowledgements that the scan of the returned rows defines. |
| PushJson.BuildPushJsonRequestFromDb | src/services/sync/formats/pushJson.ts:55-113 | The builder settles with `BuildOutcome`: the first rejected query's error, in the order the source awaits them, or else the request and the two acknowledgement lists that the scan of the returned rows defines. |
| PushJson.FirstTableFailureSpec | src/services/sync/formats/pushJson.ts:74-83 | No table rejection is met exactly when no table's queries reject. Otherwise the error is that of the first table whose queries reject. |
| PushJson.SyncedTablesQueried | src/services/sync/formats/pushJson.ts:68-83 | The table loop meets no rejection exactly when no synced catalog table has a rejected query. |
| PushJson.BuildOutcomeSpec | src/services/sync/formats/pushJson.ts:65-112 | The build succeeds exactly when the catalog query, the queries of every synced table with columns, and the tombstone query all succeed. It then gives the scan of the returned rows. A rejected catalog query, or a rejected tombstone query after successful others, ends it with that query's error. |
| PushJson.RejectedTableFailsBuild | src/services/sync/formats/pushJson.ts:78-83 | A synced table with declared columns whose inserts or updates query rejects makes the whole build fail. |
| SeqOps.FirstSomeNone | src/services/sync/formats/pushJson.ts:74-83 | A loop that stops at the first failure meets none exactly when no item fails. |
| SeqOps.FirstSomeKept | src/services/sync/formats/pushJson.ts:74-83 | A failure met in a prefix is the failure of the whole loop. |
| SeqOps.FirstSomeAt | src/services/sync/formats/pushJson.ts:74-83 | When item `i` fails and none before it does, its failure is the loop's. |
| PushJson.ChangesOfSound | src/services/sync/formats/pushJson.ts:96-98 | Every emitted change set belongs to a scanned table that has pending rows, and is not empty. |
| PushJson.ChangesForNotEmpty | src/services/sync/formats/pushJson.ts:96-98 | A table that emits an entry sends at least one insert or one update. |
| PushJson.ChangesOfComplete | src/services/sync/formats/pushJson.ts:96-98 | Every scanned table with pending inserts or updates is in the request. |
| PushJson.ChangesOfMembers | src/services/sync/formats/pushJson.ts:74-99 | The change sets are exactly those of the scanned tables with something pending, and none is empty. |
| PushJson.ScanChanges | src/services/sync/formats/pushJson.ts:65-99 | The request's change sets are exactly those of the synced catalog tables that have pending rows. No empty change set is sent. |
| PushJson.ScanFollowsCatalogOrder | src/services/sync/formats/pushJson.ts:65-99 | Change sets and update acknowledgements follow catalog order. Splitting the catalog splits both lists. |
| PushJson.TableUpdatesAre | src/services/sync/formats/pushJson.ts:86-98 | The updates a table contributes are its projected pending update rows, or none when it emits nothing. |
| PushJson.TablePendingAcks | src/services/sync/formats/pushJson.ts:86-94 | The acknowledgements of a table are, one by one, those of its pending update rows. |
| PushJson.TablePendingSent | src/services/sync/formats/pushJson.ts:86-98 | The sent updates of a table are, one by one, its pending update rows projected. |
| PushJson.FlatUpdatesByTable | src/services/sync/formats/pushJson.ts:74-99 | All sent updates are the tables' updates concatenated in scan order. |
| PushJson.ScanAcksFollowPending | src/services/sync/formats/pushJson.ts:86-94 | There is exactly one update acknowledgement per pending update row of the synced tables, in the same order. |
| PushJson.ScanSentFollowPending | src/services/sync/formats/pushJson.ts:86-98 | There is exactly one sent update per pending update row, in the same order, and it is that row projected. |
| PushJson.ScanUpdateAcks | src/services/sync/formats/pushJson.ts:86-98 | The i-th sent update and the i-th acknowledgement come from the same pending row. So every update that is sent is acknowledged, and only those are. |
| PushJson.UpdateAckIsCompareAndClear | src/services/sync/formats/pushJson.ts:88-93 | An acknowledgement is `UPDATE <table> SET MergeUpdate=0 WHERE rowid=? AND MergeUpdate=?`. It is bound to the row id's text and to the counter value the scan read. |
| PushJson.ProjectRowsArePayloadRows | src/services/sync/formats/pushJson.ts:44-53 | Every projected row has distinct keys and encoded values, and no `MergeUpdate` key. |
| PushJson.ScanPayloadRows | src/services/sync/formats/pushJson.ts:85-98 | Every insert and every update in the request is such a row. |
| PushJson.ScanTombstones | src/services/sync/formats/pushJson.ts:101-110 | There is one deletion and one tombstone removal per tombstone, in order. The deletion carries the text of the `TableId` and `RowId` values, and the removal deletes by those same values. |
| PushJson.WidgetsLookups | src/services/sync/formats/pushJson.ts:6-16 | The case-insensitive reads of the Widgets row. |
| PushJson.ProjectTwoColumnsAndCounter | src/services/sync/formats/pushJson.ts:44-53 | Two data columns and one counter column give a two-field row in column order. |
| PushJson.WidgetsRow | src/services/sync/formats/pushJson.ts:44-53 | The Widgets row is sent as `{rowid: "null", name: "a"}`. |
| JsValues.IndexOfKeySpec | src/services/sync/formats/pushJson.ts:8 | The own-property search finds the first matching key, or nothing exactly when there is none. |
| JsValues.GetSpec | src/services/sync/formats/pushJson.ts:8 | A property read gives the stored value, or `undefined` for a missing key. |
| JsValues.GetOfAppend | src/services/session/sessionStorage.ts:12-14 | Properties under other keys do not change a read. |
| JsValues.NatToString | src/services/sync/api.ts:34 | Decimal text is non-empty, all digits, and has no leading zero. |
| JsValues.IntToString | src/services/sync/api.ts:34 | The text of a number is never empty. |
| JsValues.NatToStringRoundTrip | src/services/sync/api.ts:34 | Decimal text reads back as the number. |
| JsValues.IntToStringRoundTrip | src/services/sync/api.ts:34 | Signed decimal text reads back as the number. |
| JsValues.IntToStringInjective | src/services/sync/api.ts:216 | Different numbers have different texts. |
| JsValues.LowerChar | src/services/sync/formats/pushJson.ts:11 | Only the ASCII capitals change, each to its small letter. |
| JsValues.Lower | src/services/sync/formats/pushJson.ts:11 | Lower-casing keeps the length and maps each character. |
| JsValues.LowerIdempotent | src/services/sync/formats/pushJson.ts:11 | Lower-casing twice is lower-casing once. |
| SeqOps.Map | src/services/sync/formats/pushJson.ts:33-40 | `map` keeps the length and applies the function at every position. |
| SeqOps.MapMembers | src/services/sync/formats/pushJson.ts:33-40 | The mapped elements are exactly the images of the elements. |
| SeqOps.Filter | src/services/sync/formats/pushJson.ts:41 | `filter` never lengthens a list. |
| SeqOps.FilterOne | src/services/sync/formats/pushJson.ts:41 | A one-element list keeps its element exactly when it passes. |
| SeqOps.FilterAppend | src/services/sync/formats/pushJson.ts:41 | Filtering a concatenation concatenates the filtered parts. With the previous row, the passing elements are kept once each, in their order. |
| SeqOps.MapAppend | src/services/sync/formats/pushJson.ts:33-40 | Mapping a concatenation concatenates the maps. |
| SeqOps.FilterMembers | src/services/sync/formats/pushJson.ts:41 | `filter` keeps exactly the elements that pass. |
| SeqOps.FilterMapMembers | src/services/sync/formats/pushJson.ts:33-41 | The elements of a map followed by a filter are exactly the passing images of the elements. |
| SeqOps.FlatMapAppend | src/services/sync/formats/pushJson.ts:74-99 | The results of a concatenation are the concatenated results. |
| SeqOps.FlatMapMembers | src/services/sync/formats/pushJson.ts:74-99 | An element of the concatenated results comes from some item's own result. |
| SeqOps.FlatMapPointwise | src/services/sync/formats/pushJson.ts:86-98 | Element-by-element relations between per-item results carry over to the concatenations. |
| SyncApi.ToBaseUrl | src/services/sync/api.ts:20-21 | The base URL ends with `/`. The slash is added only when missing. |
| SyncApi.ToBaseUrlIdempotent | src/services/sync/api.ts:20-21 | A base URL is its own base URL. |
| SyncApi.StripLeadingSlash | src/services/sync/api.ts:23 | `replace(/^\//, '')` removes one leading slash when there is one, and otherwise nothing. |
| SyncApi.StripRemovesAtMostOneSlash | src/services/sync/api.ts:23 | Only one slash is removed: `//x` keeps its second slash. |
| SyncApi.JoinUrlCases | src/services/sync/api.ts:22-23 | All four cases of joining a base and a path, with or without slashes at the seam. |
| SyncApi.AmpliSyncUrlShape | src/services/sync/api.ts:25-26 | A sync URL is the base URL, then `app/ampli-sync/`, then the path without one leading slash. |
| SyncApi.SegmentUrl | src/services/sync/api.ts:25-26 | A path that begins with a fixed endpoint name lands unchanged after the prefix. |
| SyncApi.PrepopulateDbUrlShape | src/services/sync/api.ts:80 | The prepopulate download URL, written out. |
| SyncApi.ReceiveChangesUrlShape | src/services/sync/api.ts:126 | The push URL, written out. |
| SyncApi.MigrationsUrlShape | src/services/sync/api.ts:144 | The migrations URL, with login and device id, written out. |
| SyncApi.MigrationsResultUrlShape | src/services/sync/api.ts:162 | The migration result URL, written out. |
| SyncApi.SyncCompressedUrlShape | src/services/sync/api.ts:185-188 | The per-table pull URL, written out. |
| SyncApi.CommitSyncUrlShape | src/services/sync/api.ts:216 | The commit URL ends with the sync id as `String(...)` prints it. |
| SyncApi.CommitSyncUrlInjective | src/services/sync/api.ts:216 | Two numeric sync ids that give the same commit URL are equal. |
| SyncApi.AuthHeaderCarriesToken | src/services/sync/api.ts:28-30 | The header object has the single key `Authorization`, whose bearer value carries the token unchanged. The JSON post headers keep it and add `Content-Type: application/json`. |
| SyncApi.AssertOk | src/services/sync/api.ts:32-35 | The check passes exactly when the response is ok. |
| SyncApi.AssertOkMessage | src/services/sync/api.ts:34 | The error is `<label> failed: <status>`, and the status can be read back from it. |
| SyncApi.AssertOkMessageInjective | src/services/sync/api.ts:34 | Equal messages under one label mean equal statuses. |
| SyncApi.DatabaseFilePathsShape | src/services/sync/api.ts:228-234 | Four different paths: the database file, then the same path with `-shm`, `-wal` and `-journal` appended. |
| SessionStorage.NormalizeSession | src/services/session/sessionStorage.ts:8-21 | A non-object is rejected, and an accepted session has three non-empty fields. |
| SessionStorage.NormalizeSessionSpec | src/services/session/sessionStorage.ts:12-20 | An object is accepted exactly when `login`, `accessToken` and `syncUrl` are all non-empty strings. The session then carries them unchanged. |
| SessionStorage.SessionRoundTrip | src/services/session/sessionStorage.ts:8-21 | A stored valid session reads back as itself. A session with an empty field is rejected. |
| SessionStorage.NormalizeSessionIdempotent | src/services/session/sessionStorage.ts:8-21 | Normalising a normalised session gives it back. |
| SessionStorage.ExtraFieldsIgnored | src/services/session/sessionStorage.ts:12-20 | Other properties are neither checked nor kept. |
| Database.SqlAndArgs | src/services/db/database.ts:11-12 | A bare string has no arguments. A query object gives its SQL and its arguments, or none. |
| Database.StatementOf | src/services/db/database.ts:32-36 | A batch entry is the bare SQL unless the query carries a non-empty argument list, in which case it is the pair. |
| Database.BatchAgreesWithExec | src/services/db/database.ts:11-12 | A batch entry asks the driver for the same SQL and arguments as a single execution of that query. |
| Database.BatchStatements | src/services/db/database.ts:32-36 | One batch entry per query, in order. |
| Database.CollectRows | src/services/db/database.ts:16-20 | The rows collected are `rows.item(0)` to `rows.item(length - 1)`, in order, or none without a row set. |
| Database.DbAll | src/services/db/database.ts:10-23 | With no connection the error is `Database not connected`. Otherwise the driver's result is the row list, or its error. |
| Database.DbExec | src/services/db/database.ts:25-29 | The same for a statement whose result is discarded. |
| Database.DbBatch | src/services/db/database.ts:31-39 | The driver receives the mapped batch of the queries. |
| DbConnection.OpenOptionsFor | src/services/db/connection.ts:15-18 | The database opens at location `default` under the file name `<name>.db`. |
| DbConnection.Connection.constructor | src/services/db/connection.ts:5 | A fresh connection holds no database. |
| DbConnection.Connection.GetDb | src/services/db/connection.ts:7-10 | Fails with `Database not connected` exactly when no database is open, and otherwise gives the open handle. |
| DbConnection.Connection.ConnectDatabase | src/services/db/connection.ts:12-19 | An open connection is kept unchanged. Otherwise the database is opened with the options above, and the handle is kept only on success. |
| DbConnection.Connection.CloseDatabase | src/services/db/connection.ts:21-30 | After closing, no database is held, whether or not the driver's close succeeded. A failed close is swallowed: the method reports nothing. |
| DbConnection.ConnectionLifecycle | src/services/db/connection.ts:7-30 | `getDb` fails before connecting and after closing. Between the two, it gives the handle the driver returned. |

## Left out

- The network and the file system: `fetch`, `downloadFile`, `unzip`, `moveFile`, `unlink`, `exists` and `mkdir` are not modelled. Only the URLs, headers, status check and file paths are. The prepopulate download's own status check (`statusCode !== 200`) is part of that I/O.
- The decompression and decoding of pulled changes (`pako.inflate`, `TextDecoder`, `JSON.parse`), and `JSON.stringify` of request bodies. They are foreign calls.
- `getPlatformDatabasePath`: it reads the platform and the bundle id. The directory is a parameter of `SyncApi.DatabasePath` and `SyncApi.DatabaseFilePaths`.
- AsyncStorage persistence in `sessionStorage.ts` (load, save, clear). It is I/O. Only `normalizeSession` is modelled, and a stored session is modelled as `SessionStorage.SessionRecord`.
- The SQL engine. The four queries of the payload builder (catalog, unsynced rows, pending updates, tombstones) are answered by `QueryAnswers`, each answer the rows or a rejection. Which query text the engine rejects, and why, is not modelled. The `WHERE` filtering (`RowId is null` for inserts, and `MergeUpdate > 0 and RowId is not null` for updates) is trusted to the engine and not modelled.
- Executing the acknowledgement statements is not modelled: the model proves only the statements and their arguments. The driver's `executeSql`, `sqlBatch`, `open` and `close` are function parameters.
- Interleaving: the order in which the awaited queries are issued, and so which rejection is met first, is modelled. Other work interleaved at an `await`, and concurrent calls into the connection singleton, are not. Each method is one atomic step.
- A native row set that reports rows but has no `item` accessor: the source then throws at `item(i)` (src/services/db/database.ts:17-19). The model's `Database.Rows` always carries `item`, so this error is not modelled.
- Floating-point numbers: numbers are integers, and `String(...)` of a number is its plain decimal text. That is JavaScript's text only for safe integers. It prints magnitudes of 1e21 and above in exponent form, and it rounds integers beyond 2^53. Arrays, blobs and nested objects are `Other` values that carry their `String(...)` text.
- `Object.keys` order: a record keeps insertion order. JavaScript's rule that integer-like keys come first is not modelled.
- Prototype-chain properties. Only own properties are read, as the source's `hasOwnProperty` and `Object.keys` do.
- `toLowerCase` covers the ASCII letters only. `trim` uses space, tab, line feed, vertical tab, form feed, carriage return, no-break space and byte-order mark, not the full Unicode whitespace set.
- The regular expression in `opColumnNames` is not interpreted. It is written out as an explicit string function, `PushJson.StripToColumnClause`. `PushJson.StripToColumnClauseSpec` proves that this function follows the pattern `^[^(]+\(([^)]+)\)`.
- `service.ts`, the screens and the sign-in flow are callers, not part of this model.
