# CICOPersistent ORM store and hex codec, modelled in Dafny

CICOPersistent is a Swift library that stores Codable objects in SQLite through FMDB. Its core
is `ORMDBService`, an object store that keeps one table per object type. It works as follows.

- The store keeps a catalog table (`cico_orm_table_info`). Each catalog row maps a table name to
  the name and version of the type stored there.
- Before each write, the store reconciles the table with the type (`fixTableIfNeeded`). It
  creates the table when the catalog does not track it for that type. It adds the missing
  columns and aligns the indexes when the recorded version is older than the type's. Otherwise
  it does nothing.
- It reads, writes, updates and removes objects by primary key, each in one transaction that is
  rolled back when any step fails.

The helper `ORMDBServiceInnerAide` holds the naming rules, the upgrade steps and record access.
`SecurityAide` provides a base16 codec (`hexString` / `hexData`).

The model has six modules:

- `Wrappers`: `Option`.
- `Hex`: the codec. `HexString` is a function. `HexData` is a method with the source's loop,
  proved equal to the loop-free `Decode`. Lemmas prove the round trip and the prefix rules.
- `Engine`: the database. It models the file as a `State` holding:
  - whether the catalog table exists;
  - the catalog rows;
  - the tables (columns, key, rows in insertion order);
  - the index namespace.
  `Apply` gives each statement's effect, or `None` for the errors SQLite reports (an existing
  index name, a missing table or column, a duplicate column, a row that leaves a non-INTEGER key
  NULL). A row that leaves an INTEGER PRIMARY KEY NULL is stored under a fresh rowid. `Execute`
  also fails the statements in an environment-chosen fault set. The class `Database` stands for
  the FMDB connection. Its state changes only through `ExecuteUpdate` and `Rollback`.
- `InnerAide`: the helper's operations as methods over a `Database`. Each is proved against a
  function of the state: `ColumnUpgrade`, `IndexUpgrade`, `ReadRecord`, `ReadRecords`,
  `Replaced`.
- `OrmService`: the catalog and reconciliation methods, and the class `ORMDBService` with its
  nullable `dbQueue`. Each operation is proved against an outcome function: `FixTable`,
  `WriteOutcome`, `WriteArrayOutcome`, `UpdateOutcome`, `RemoveOutcome`, `RemoveTableOutcome`,
  `ReadOutcome`, `ReadArrayOutcome`. A transaction takes a snapshot of the state and restores it
  with `Rollback` wherever the source sets `rollback.pointee`.
- `ServiceProperties`: lemmas relating several operations, listed below.

Two things about the code that shape the model:

- Versions can go down. When the stored type name differs from the requested one,
  `fixTableIfNeeded` takes the creation path, and when that path succeeds it overwrites the
  catalog row whatever the stored version (`ServiceProperties.TypeMismatchCanLowerVersion`).
- On that same path an existing table keeps its columns, because CREATE TABLE IF NOT EXISTS does
  nothing, yet the catalog records the new type as current. The catalog can then be ahead of the
  schema (see "## Findings").
- The private helpers that `ORMDBService.swift` repeats (`readObject`, `readObjectArray`,
  `replaceRecord`, `deleteRecord`, `queryTableColumns`, `queryTableIndexs`, `createIndex`,
  `dropIndex`, lines 750-964) have the same bodies as those in `ORMDBServiceInnerAide.swift`.
  They are modelled once, in `InnerAide`. The inline column and index loops of
  `fixTableIfNeeded` are the bodies of `upgradeTableColumn` and `upgradeTableIndex`, so
  `FixTableIfNeeded` calls those.

Parameters stand for what the model cannot see:

- An `ObjectType` carries the type's name, its stored fields with SQLite types (what
  `SQLiteTypeDecoder` reflects), its key, its index columns and its version.
- A `Codec` carries the record encoder and decoder; either may fail.
- `resultSet` stands for the rows SQLite's evaluation of a WHERE / ORDER BY / LIMIT text yields.
  Callers must pass rows of the table (`Engine.QueryResult`), and all of them when the query has
  no WHERE and no LIMIT.
- `dirCreated`, `connection`, `removed`, `leftover` and `opens` stand for the file system's
  answers.

## Model

| member | source | states |
|---|---|---|
| Hex.Digit | CICOPersistent/tool/security/SecurityAide.swift:33 | every nibble is rendered as a lowercase hex digit |
| Hex.DigitValue | CICOPersistent/tool/security/SecurityAide.swift:53 | a character has a base-16 value iff it is 0-9, a-f or A-F, and that value is below 16 |
| Hex.DigitValueOfDigit | CICOPersistent/tool/security/SecurityAide.swift:32-61 | parsing a rendered digit gives back the nibble |
| Hex.ParseByte | CICOPersistent/tool/security/SecurityAide.swift:53 | a two-character chunk is a byte iff both characters are hex digits, and then it is 16·high + low |
| Hex.HexString | CICOPersistent/tool/security/SecurityAide.swift:32-34 | the rendering is exactly twice as long as the data |
| Hex.HexStringAt | CICOPersistent/tool/security/SecurityAide.swift:33 | characters 2i and 2i+1 are the high and low nibble of byte i, in byte order |
| Hex.HexStringIsLowercase | CICOPersistent/tool/security/SecurityAide.swift:33 | every character of the rendering is a lowercase hex digit |
| Hex.Stripped | CICOPersistent/tool/security/SecurityAide.swift:37-40 | exactly one leading "0x" is removed, and nothing else is changed |
| Hex.Decode | CICOPersistent/tool/security/SecurityAide.swift:36-61 | some iff the stripped text is non-empty, of even length and every chunk parses; then the length is half the stripped length and byte i is chunk i |
| Hex.HexData | CICOPersistent/tool/security/SecurityAide.swift:36-61 | the loop with its early nil return computes `Decode` |
| Hex.HexStringHasNoPrefix | CICOPersistent/tool/security/SecurityAide.swift:32-40 | a rendering never starts with "0x", so it is decoded unstripped |
| Hex.ChunkOfHexString | CICOPersistent/tool/security/SecurityAide.swift:32-61 | chunk i of a rendering parses to byte i |
| Hex.RoundTrip | CICOPersistent/tool/security/SecurityAide.swift:32-61 | for non-empty data, hexData(hexString(d)) == d |
| Hex.EmptyIsRejected | CICOPersistent/tool/security/SecurityAide.swift:42-44 | the rendering of empty data decodes to nil |
| Hex.PrefixedRoundTrip | CICOPersistent/tool/security/SecurityAide.swift:37-40 | "0x" followed by a rendering decodes to the data |
| Hex.UppercasePrefixIsRejected | CICOPersistent/tool/security/SecurityAide.swift:38 | "0X" is not a prefix: the text decodes to nil |
| Hex.SecondPrefixIsRejected | CICOPersistent/tool/security/SecurityAide.swift:37-40 | only one "0x" is stripped: "0x0x…" decodes to nil |
| Engine.Keep | CICOPersistent/orm_db/internal/ORMDBServiceInnerAide.swift:342-344 | DELETE keeps exactly the rows that do not match the key, and never adds one |
| Engine.ResultRowsAreStored | CICOPersistent/orm_db/internal/ORMDBServiceInnerAide.swift:273-303 | a query result holds only stored rows, and a result without WHERE or LIMIT holds every stored row, as many as the table has |
| Engine.SelectRows | CICOPersistent/orm_db/internal/ORMDBServiceInnerAide.swift:296-303 | the query succeeds iff the table exists and the statement is not failed, and then yields rows of the table |
| Engine.FirstMatch | CICOPersistent/orm_db/internal/ORMDBServiceInnerAide.swift:246-255 | the LIMIT 1 lookup returns a matching row, and none iff no row matches |
| Engine.IndexNames | CICOPersistent/orm_db/internal/ORMDBServiceInnerAide.swift:113-133 | the listed index names are indexes that exist; a failed query lists none |
| Engine.KeepPreservesUniqueKeys | CICOPersistent/orm_db/internal/ORMDBServiceInnerAide.swift:336-350 | deleting rows keeps the primary key unique |
| Engine.ReplaceKeepsTableWellFormed | CICOPersistent/orm_db/internal/ORMDBServiceInnerAide.swift:318-334 | REPLACE keeps the key unique and the rows within the columns |
| Engine.ApplyPreservesWellFormed | CICOPersistent/orm_db/internal/ORMDBServiceInnerAide.swift:69-158 | every statement the engine accepts keeps keys unique, rows within columns and indexes on existing columns |
| Engine.MaxIntegerKey | CICOPersistent/orm_db/internal/ORMDBServiceInnerAide.swift:318-334 | none iff no row holds an integer key; otherwise no integer key exceeds it |
| Engine.FreshRowid | CICOPersistent/orm_db/internal/ORMDBServiceInnerAide.swift:318-334 | the assigned rowid is above every integer key in the table, and with AUTOINCREMENT above the largest key ever stored |
| Engine.StoredRow | CICOPersistent/orm_db/internal/ORMDBServiceInnerAide.swift:318-334 | REPLACE stores the row as given when it carries a non-NULL key; when the key is missing or NULL it stores the row with a fresh rowid iff the key is an INTEGER PRIMARY KEY, and fails otherwise; other columns are unchanged |
| Engine.Apply | CICOPersistent/orm_db/internal/ORMDBServiceInnerAide.swift:69-158 | queries change nothing; catalog writes succeed only once the catalog table exists |
| Engine.Execute | CICOPersistent/orm_db/internal/ORMDBServiceInnerAide.swift:69-158 | a statement in the fault set fails; any other runs as `Apply` |
| Engine.ColumnNames | CICOPersistent/orm_db/internal/ORMDBServiceInnerAide.swift:82-100 | the listed columns are columns of the table, all of them unless the pragma fails; a missing table lists none |
| Engine.NullIntegerKeyIsAssigned | CICOPersistent/orm_db/internal/ORMDBServiceInnerAide.swift:318-334 | a row leaving an INTEGER PRIMARY KEY NULL is appended under a rowid no row has, every existing row kept |
| Engine.KeepWithoutMatches | CICOPersistent/orm_db/internal/ORMDBServiceInnerAide.swift:336-350 | deleting a value no row holds keeps every row |
| Engine.ReplacedRowIsFound | CICOPersistent/orm_db/internal/ORMDBServiceInnerAide.swift:318-334 | after REPLACE, the lookup by the row's key finds exactly that row |
| Engine.Database.ExecuteUpdate | CICOPersistent/orm_db/internal/ORMDBServiceInnerAide.swift:135-147 | true with the statement's effect, or false with no change |
| Engine.Database.Rollback | CICOPersistent/orm_db/ORMDBService.swift:312-315 | the state returns to the transaction's snapshot |
| InnerAide.TableName | CICOPersistent/orm_db/internal/ORMDBServiceInnerAide.swift:13-21 | the custom name if given; otherwise the type name behind the prefix "table_" |
| InnerAide.DefaultTableNamesDistinct | CICOPersistent/orm_db/internal/ORMDBServiceInnerAide.swift:13-21 | distinct type names give distinct table-name strings |
| InnerAide.IndexName | CICOPersistent/orm_db/internal/ORMDBServiceInnerAide.swift:23-25 | the name is "index_", the column, "_of_" and the table, in that order |
| InnerAide.IndexNameInjective | CICOPersistent/orm_db/internal/ORMDBServiceInnerAide.swift:23-25 | within one table the index name determines the column |
| InnerAide.IndexNamesCollideAcrossTables | CICOPersistent/orm_db/internal/ORMDBServiceInnerAide.swift:23-25 | across tables two index names can coincide |
| InnerAide.ColumnDefsMarkOnlyTheKey | CICOPersistent/orm_db/internal/ORMDBServiceInnerAide.swift:40-56 | one column per field; only the key is NOT NULL PRIMARY KEY; AUTOINCREMENT only on an INTEGER key when asked |
| InnerAide.CreateTableIfNotExists | CICOPersistent/orm_db/internal/ORMDBServiceInnerAide.swift:29-67 | the definitions built field by field are `ColumnDefs`; the result and new state are those of CREATE TABLE IF NOT EXISTS |
| InnerAide.ColumnUpgrade | CICOPersistent/orm_db/internal/ORMDBServiceInnerAide.swift:162-186 | on success every field is a column of the table |
| InnerAide.AddColumnsStep | CICOPersistent/orm_db/internal/ORMDBServiceInnerAide.swift:172-181 | one more ADD COLUMN advances the set-wide closed form exactly as the engine does |
| InnerAide.AddColumnsFailureSpreads | CICOPersistent/orm_db/internal/ORMDBServiceInnerAide.swift:178-180 | a failing ADD COLUMN makes the whole column step fail |
| InnerAide.NothingMissingIsNoOp | CICOPersistent/orm_db/internal/ORMDBServiceInnerAide.swift:170-185 | with no missing field, the column step returns true and changes nothing |
| InnerAide.UpgradeTableColumn | CICOPersistent/orm_db/internal/ORMDBServiceInnerAide.swift:162-186 | returns true iff every missing field is added, with the state `ColumnUpgrade` gives; never touches the catalog or the indexes |
| InnerAide.RequiredIndexes | CICOPersistent/orm_db/internal/ORMDBServiceInnerAide.swift:197-206 | every listed column has its index name, and each name maps back to a listed column |
| InnerAide.RequiredIndexesExact | CICOPersistent/orm_db/internal/ORMDBServiceInnerAide.swift:197-206 | the required names are exactly the listed columns' names, duplicates collapsed |
| InnerAide.CreateIndexesStep | CICOPersistent/orm_db/internal/ORMDBServiceInnerAide.swift:213-222 | one more CREATE INDEX advances the set-wide closed form exactly as the engine does |
| InnerAide.DropIndexesStep | CICOPersistent/orm_db/internal/ORMDBServiceInnerAide.swift:224-230 | one more DROP INDEX advances the set-wide closed form exactly as the engine does |
| InnerAide.IndexUpgrade | CICOPersistent/orm_db/internal/ORMDBServiceInnerAide.swift:188-235 | on success every listed column's index exists |
| InnerAide.BuildIndexDictionary | CICOPersistent/orm_db/internal/ORMDBServiceInnerAide.swift:195-210 | the set and dictionary built in the loop are the required names and their columns |
| InnerAide.CreateMissingIndexes | CICOPersistent/orm_db/internal/ORMDBServiceInnerAide.swift:212-222 | the creation loop computes `CreateIndexes` |
| InnerAide.DropStaleIndexes | CICOPersistent/orm_db/internal/ORMDBServiceInnerAide.swift:224-230 | the drop loop computes `DropIndexes` |
| InnerAide.UpgradeTableIndex | CICOPersistent/orm_db/internal/ORMDBServiceInnerAide.swift:188-235 | returns true iff the missing indexes are created and the stale ones dropped, with the state `IndexUpgrade` gives; tables and catalog untouched |
| InnerAide.ReadRecord | CICOPersistent/orm_db/internal/ORMDBServiceInnerAide.swift:239-260 | a record is the decoding of a row of that table whose key column holds the value |
| InnerAide.ReadObject | CICOPersistent/orm_db/internal/ORMDBServiceInnerAide.swift:239-260 | the decoded first row with that key; nil on query failure or no row |
| InnerAide.ReadRecordAbsent | CICOPersistent/orm_db/internal/ORMDBServiceInnerAide.swift:253-259 | no matching row gives nil, whatever the decoder |
| InnerAide.QuerySql | CICOPersistent/orm_db/internal/ORMDBServiceInnerAide.swift:273-294 | the text starts with `SELECT * FROM` and the table and ends with `;` |
| InnerAide.DefaultOrderIsDescending | CICOPersistent/orm_db/internal/ORMDBServiceInnerAide.swift:262-294 | with the defaults (descending true, no WHERE, no LIMIT) an ORDER BY column sorts DESC, and no column gives a bare scan |
| InnerAide.QueryArgs | CICOPersistent/orm_db/internal/ORMDBServiceInnerAide.swift:289-292 | the arguments are exactly the limit when one is given, else empty |
| InnerAide.QueryShape | CICOPersistent/orm_db/internal/ORMDBServiceInnerAide.swift:273-294 | the direction is spelled only after ORDER BY; without clauses the query is a bare `SELECT * FROM t;` |
| InnerAide.BuildQuery | CICOPersistent/orm_db/internal/ORMDBServiceInnerAide.swift:273-294 | appending clause by clause yields `SELECT * FROM t [WHERE w] [ORDER BY o DESC/ASC] [LIMIT ?];` and its arguments |
| InnerAide.DecodeAll | CICOPersistent/orm_db/internal/ORMDBServiceInnerAide.swift:305-313 | some iff every row decodes; then one object per row, in row order |
| InnerAide.DecodeRows | CICOPersistent/orm_db/internal/ORMDBServiceInnerAide.swift:305-313 | the loop with its early nil return computes `DecodeAll` |
| InnerAide.ReadRecords | CICOPersistent/orm_db/internal/ORMDBServiceInnerAide.swift:262-316 | every returned object is the decoding of a row of the table; with no WHERE and no LIMIT there is one object per stored row and every stored row's decoding is returned |
| InnerAide.ReadObjectArray | CICOPersistent/orm_db/internal/ORMDBServiceInnerAide.swift:262-316 | with the source's defaults (descending true, the rest nil): nil when the query fails or any row fails to decode, else every row of the result decoded, as `ReadRecords` states |
| InnerAide.EmptyResultIsEmptyArray | CICOPersistent/orm_db/internal/ORMDBServiceInnerAide.swift:305-315 | no rows give an empty array, not nil |
| InnerAide.OneBadRowVoidsTheRead | CICOPersistent/orm_db/internal/ORMDBServiceInnerAide.swift:307-310 | one undecodable row makes the whole read nil |
| InnerAide.Replaced | CICOPersistent/orm_db/internal/ORMDBServiceInnerAide.swift:318-334 | an encoding failure fails; a REPLACE leaves the catalog, the indexes, every other table and the written table's columns and key as they were; the stored row is in the table, and so is every old row under another key |
| InnerAide.ReplaceRecord | CICOPersistent/orm_db/internal/ORMDBServiceInnerAide.swift:318-334 | false with no change when encoding fails, else the result and effect of REPLACE |
| InnerAide.DeleteRecord | CICOPersistent/orm_db/internal/ORMDBServiceInnerAide.swift:336-350 | the result and effect of `DELETE ... WHERE key = ?` |
| OrmService.TableInfoFor | CICOPersistent/orm_db/ORMDBService.swift:531-557 | a catalog row counts iff it exists and names the requested type, and then gives its version |
| OrmService.ReadORMTableInfo | CICOPersistent/orm_db/ORMDBService.swift:531-557 | computes `TableInfoFor` over the connection |
| OrmService.WriteORMTableInfo | CICOPersistent/orm_db/ORMDBService.swift:559-576 | the result and effect of REPLACE INTO the catalog |
| OrmService.IsTableExist | CICOPersistent/orm_db/ORMDBService.swift:678-684 | true iff the catalog tracks the table for this type |
| OrmService.CreateIndexesInOrder | CICOPersistent/orm_db/ORMDBService.swift:727-739 | creating indexes keeps every existing index and touches no table or catalog row |
| OrmService.Creation | CICOPersistent/orm_db/ORMDBService.swift:686-748 | on success the table exists and the catalog records it for the type at the type's version; the columns reuse `ColumnDefs(…, false)` of `createTableIfNotExists`, although the source writes the key as a `PRIMARY KEY(key)` table constraint rather than inline |
| OrmService.Upgrade | CICOPersistent/orm_db/ORMDBService.swift:607-670 | on success the catalog records the table for the type at the type's version |
| OrmService.AligningFixTable | CICOPersistent/orm_db/ORMDBService.swift:595-605 | corrected reconciliation: on success the catalog tracks the table for the type at the type's version or newer; an existing untracked table is aligned as an upgrade |
| OrmService.FixTable | CICOPersistent/orm_db/ORMDBService.swift:585-676 | on success the catalog tracks the table for the type at the type's version or newer |
| OrmService.CreateTableAndIndexes | CICOPersistent/orm_db/ORMDBService.swift:686-748 | table, then one index per listed column in order, then the catalog row; true iff all succeed (`Creation`) |
| OrmService.FixTableIfNeeded | CICOPersistent/orm_db/ORMDBService.swift:585-676 | true iff `FixTable` succeeds, with its state: create when untracked, nothing when current, upgrade when behind |
| OrmService.ReadOutcome | CICOPersistent/orm_db/ORMDBService.swift:243-264 | an untracked table reads as nil |
| OrmService.ReadArrayOutcome | CICOPersistent/orm_db/ORMDBService.swift:266-291 | an untracked table reads as nil; a tracked one reads as `ReadRecords` over rows of the table |
| OrmService.WriteOutcome | CICOPersistent/orm_db/ORMDBService.swift:293-326 | a failed write leaves the database as it was |
| OrmService.ReplaceAll | CICOPersistent/orm_db/ORMDBService.swift:352-358 | replacing rows adds no table, drops none and touches no index or catalog row |
| OrmService.WriteArrayOutcome | CICOPersistent/orm_db/ORMDBService.swift:328-363 | success only for a non-empty array |
| OrmService.UpdateOutcome | CICOPersistent/orm_db/ORMDBService.swift:365-416 | a failed update leaves the database as it was |
| OrmService.RemoveOutcome | CICOPersistent/orm_db/ORMDBService.swift:418-443 | a failed removal leaves the database as it was |
| OrmService.RemoveTableOutcome | CICOPersistent/orm_db/ORMDBService.swift:445-473 | a failed table removal leaves the database as it was |
| OrmService.ClearedFile | CICOPersistent/orm_db/ORMDBService.swift:231-236 | a deleted file reopens empty |
| OrmService.ORMDBService.constructor | CICOPersistent/orm_db/ORMDBService.swift:475-498 | the connection is kept iff the directory, the file and the catalog table are all created |
| OrmService.ORMDBService.ReadObject | CICOPersistent/orm_db/ORMDBService.swift:243-264 | nil without a connection, else `ReadOutcome` |
| OrmService.ORMDBService.ReadObjectArray | CICOPersistent/orm_db/ORMDBService.swift:95-109 | with the defaults (descending true, the rest nil): nil without a connection, else `ReadArrayOutcome` |
| OrmService.ORMDBService.WriteObject | CICOPersistent/orm_db/ORMDBService.swift:293-326 | false without a connection, else the result and committed state of `WriteOutcome` |
| OrmService.ORMDBService.WriteObjectArray | CICOPersistent/orm_db/ORMDBService.swift:328-363 | false without a connection, else `WriteArrayOutcome` |
| OrmService.ORMDBService.UpdateObject | CICOPersistent/orm_db/ORMDBService.swift:365-416 | the completion value: false without a connection, else `UpdateOutcome` |
| OrmService.ORMDBService.RemoveObject | CICOPersistent/orm_db/ORMDBService.swift:418-443 | false without a connection, else `RemoveOutcome` |
| OrmService.ORMDBService.RemoveObjectTable | CICOPersistent/orm_db/ORMDBService.swift:445-473 | false without a connection, else `RemoveTableOutcome` |
| OrmService.ORMDBService.ClearAll | CICOPersistent/orm_db/ORMDBService.swift:231-236 | returns the removal result; the new connection holds the cleared file, with no catalog table created |
| OrmService.ORMDBService.ClearAllAndReinitialize | CICOPersistent/orm_db/ORMDBService.swift:488-497 | as `ClearAll`, but the connection is kept only once the catalog table is created, as `initDB` does |
| ServiceProperties.CreateIndexesInOrderKeeps | CICOPersistent/orm_db/ORMDBService.swift:727-739 | creating indexes only adds indexes, one per listed column, and touches no table or catalog row |
| ServiceProperties.IndexUpgradeKeeps | CICOPersistent/orm_db/ORMDBService.swift:632-662 | the index step touches no table or catalog row |
| ServiceProperties.ColumnUpgradeKeeps | CICOPersistent/orm_db/ORMDBService.swift:608-623 | the column step changes only the table's columns and keeps its rows, key and old columns |
| ServiceProperties.ColumnUpgradeExact | CICOPersistent/orm_db/ORMDBService.swift:609-623 | the columns become the old columns plus the fields |
| ServiceProperties.CurrentVersionIsNoOp | CICOPersistent/orm_db/ORMDBService.swift:607 | a tracked table at the type's version or newer is left exactly as it is |
| ServiceProperties.FixTableTracks | CICOPersistent/orm_db/ORMDBService.swift:585-676 | after success the table is tracked for the type, at the old version if current, else at the type's |
| ServiceProperties.FixTableIdempotent | CICOPersistent/orm_db/ORMDBService.swift:585-676 | reconciling a second time changes nothing |
| ServiceProperties.VersionNeverDecreasesForOwner | CICOPersistent/orm_db/ORMDBService.swift:607-676 | for the owning type the recorded version becomes the larger of the two |
| ServiceProperties.TypeMismatchCanLowerVersion | CICOPersistent/orm_db/ORMDBService.swift:595-605 | a type-name mismatch re-records the table under another type at a lower version |
| ServiceProperties.FixTableCoversFields | CICOPersistent/orm_db/ORMDBService.swift:585-676 | when reconciliation creates a new table or upgrades a tracked one, every field of the type is a column |
| ServiceProperties.MismatchLeavesCatalogAheadOfSchema | CICOPersistent/orm_db/ORMDBService.swift:595-605 | an empty array write over a table tracked for another type commits the new type as current without its columns; later writes of rows with the missing column fail |
| ServiceProperties.AligningFixTableCoversFields | CICOPersistent/orm_db/ORMDBService.swift:595-605 | with the corrected reconciliation every field is a column whenever the catalog row is written, on every path |
| ServiceProperties.AligningFixTableAddsMissingColumn | CICOPersistent/orm_db/ORMDBService.swift:595-605 | on the same example the corrected reconciliation adds the missing column |
| ServiceProperties.UpgradeAddsExactlyMissingColumns | CICOPersistent/orm_db/ORMDBService.swift:607-670 | after an upgrade the columns are the old ones plus the fields; no column, row or key is lost |
| ServiceProperties.IndexUpgradeExact | CICOPersistent/orm_db/ORMDBService.swift:625-662 | after the index step the table's index names equal the required set |
| ServiceProperties.UpgradeLeavesExactlyRequiredIndexes | CICOPersistent/orm_db/ORMDBService.swift:607-670 | after an upgrade the table's indexes are exactly the type's |
| ServiceProperties.NilIndexArrayDropsEveryIndex | CICOPersistent/orm_db/ORMDBService.swift:642-645 | no index list means every index of the table is dropped |
| ServiceProperties.CreationColumnsAreFields | CICOPersistent/orm_db/ORMDBService.swift:696-725 | a newly created table has exactly the fields as columns, the type's key and no rows |
| ServiceProperties.CreationIndexesEveryColumn | CICOPersistent/orm_db/ORMDBService.swift:727-739 | creation makes an index for every listed column |
| ServiceProperties.TakenIndexNameFails | CICOPersistent/orm_db/ORMDBService.swift:727-739 | a listed column whose index name is taken makes creation fail |
| ServiceProperties.DuplicateIndexColumnFails | CICOPersistent/orm_db/ORMDBService.swift:727-739 | a column listed twice makes the second CREATE INDEX fail |
| ServiceProperties.DuplicateIndexColumnsBlockWrites | CICOPersistent/orm_db/ORMDBService.swift:595-605 | such a type can never be written to an untracked table; the write changes nothing |
| ServiceProperties.FixTableKeepsConsistent | CICOPersistent/orm_db/ORMDBService.swift:585-676 | reconciliation keeps every table and records only existing tables |
| ServiceProperties.WriteKeepsConsistent | CICOPersistent/orm_db/ORMDBService.swift:293-326 | every catalog row still names an existing table after a write |
| ServiceProperties.WriteArrayKeepsConsistent | CICOPersistent/orm_db/ORMDBService.swift:328-363 | likewise after an array write |
| ServiceProperties.UpdateKeepsConsistent | CICOPersistent/orm_db/ORMDBService.swift:365-416 | likewise after an update |
| ServiceProperties.RemoveKeepsConsistent | CICOPersistent/orm_db/ORMDBService.swift:418-443 | likewise after a removal |
| ServiceProperties.RemoveTableKeepsConsistent | CICOPersistent/orm_db/ORMDBService.swift:445-473 | dropping a tracked table also forgets it, so no row points at nothing |
| ServiceProperties.CreateIndexesInOrderPreservesWellFormed | CICOPersistent/orm_db/ORMDBService.swift:727-739 | creating indexes keeps keys unique, rows within columns and indexes on existing columns |
| ServiceProperties.CreationPreservesWellFormed | CICOPersistent/orm_db/ORMDBService.swift:686-748 | likewise for table creation |
| ServiceProperties.ColumnUpgradePreservesWellFormed | CICOPersistent/orm_db/internal/ORMDBServiceInnerAide.swift:162-186 | likewise for the column step |
| ServiceProperties.IndexUpgradePreservesWellFormed | CICOPersistent/orm_db/internal/ORMDBServiceInnerAide.swift:188-235 | likewise for the index step |
| ServiceProperties.FixTablePreservesWellFormed | CICOPersistent/orm_db/ORMDBService.swift:585-676 | likewise for reconciliation |
| ServiceProperties.ReplaceAllPreservesWellFormed | CICOPersistent/orm_db/ORMDBService.swift:352-358 | likewise for replacing a sequence of rows |
| ServiceProperties.WriteKeepsWellFormed | CICOPersistent/orm_db/ORMDBService.swift:293-326 | likewise after a write |
| ServiceProperties.WriteArrayKeepsWellFormed | CICOPersistent/orm_db/ORMDBService.swift:328-363 | likewise after an array write |
| ServiceProperties.UpdateKeepsWellFormed | CICOPersistent/orm_db/ORMDBService.swift:365-416 | likewise after an update |
| ServiceProperties.RemoveKeepsWellFormed | CICOPersistent/orm_db/ORMDBService.swift:418-443 | likewise after a removal |
| ServiceProperties.RemoveTableKeepsWellFormed | CICOPersistent/orm_db/ORMDBService.swift:445-473 | likewise after a table removal |
| ServiceProperties.FixTableKey | CICOPersistent/orm_db/ORMDBService.swift:585-676 | an existing table keeps its key; a created one is keyed on the type's key |
| ServiceProperties.FixTableKeepsRows | CICOPersistent/orm_db/ORMDBService.swift:585-676 | reconciliation keeps every existing table's rows and key, and every other table exactly |
| ServiceProperties.WriteKeepsOtherRows | CICOPersistent/orm_db/ORMDBService.swift:293-326 | a write leaves every other table as it was and keeps every row stored under another key |
| ServiceProperties.WriteThenReadAll | CICOPersistent/orm_db/ORMDBService.swift:95-109 | after a successful write, a successful array read with the defaults contains the decoding of the stored row |
| ServiceProperties.EmptyTableReadsEmpty | CICOPersistent/orm_db/ORMDBService.swift:95-109 | an array read with the defaults of a tracked, empty table gives an empty array, not nil |
| ServiceProperties.WriteThenRead | CICOPersistent/orm_db/ORMDBService.swift:293-326 | after a successful write, reading by the stored key (the row's own key, or the assigned rowid when an INTEGER key was nil) gives the decoding of the stored row |
| ServiceProperties.ReplaceThenRead | CICOPersistent/orm_db/internal/ORMDBServiceInnerAide.swift:318-334 | a row replaced into a tracked table keyed on the type's key is read back by its stored key (its own, or the assigned rowid) as the decoding of the stored row |
| ServiceProperties.RemoveThenRead | CICOPersistent/orm_db/ORMDBService.swift:418-443 | after a successful removal, reading by that key gives nil |
| ServiceProperties.RemoveTableThenRead | CICOPersistent/orm_db/ORMDBService.swift:445-473 | after a successful table removal the table is untracked and reads give nil |
| ServiceProperties.EmptyArrayCommitsReconciliation | CICOPersistent/orm_db/ORMDBService.swift:333-362 | an empty array returns false yet commits the reconciliation |
| ServiceProperties.SingletonArrayIsWrite | CICOPersistent/orm_db/ORMDBService.swift:328-363 | writing an array of one object is writing that object |
| ServiceProperties.WriteArrayAllOrNothing | CICOPersistent/orm_db/ORMDBService.swift:352-358 | an array write replaces every row or leaves the database as it was |
| ServiceProperties.NilUpdateChangesNothing | CICOPersistent/orm_db/ORMDBService.swift:389-392 | a nil answer from the closure is a success with no change |
| ServiceProperties.UntrackedRemovalsChangeNothing | CICOPersistent/orm_db/ORMDBService.swift:427-430 | removals on an untracked table return true and change nothing |
| ServiceProperties.ClearedStoreRejectsWrites | CICOPersistent/orm_db/ORMDBService.swift:231-236 | after clearing as written, every write, array write and non-nil update fails |
| ServiceProperties.CreateIndexesInOrderSucceeds | CICOPersistent/orm_db/ORMDBService.swift:727-739 | distinct existing columns with free index names are all indexed |
| ServiceProperties.ReinitializedStoreAcceptsWrites | CICOPersistent/orm_db/ORMDBService.swift:488-497 | with the catalog table re-created, a fault-free empty store accepts a well-formed write |

## Left out

- SQL text: statements are the `Stmt` datatype, not strings. The one exception is the query
  text `readObjectArray` builds (`InnerAide.QuerySql`).
- WHERE, ORDER BY and LIMIT evaluation: `ReadObjectArray` takes the resulting rows as the
  `resultSet` parameter. The model states that they are rows of the table, and all of them
  without WHERE and LIMIT. It does not state which rows a WHERE or LIMIT selects, nor the order
  an ORDER BY gives.
- SQLite type affinity: comparing `key = ?` uses plain value equality.
- Engine.Apply: a non-integer value given for an INTEGER PRIMARY KEY is stored as given, where
  SQLite converts it by affinity or rejects it; the random rowid SQLite falls back to once the
  largest rowid is the 64-bit maximum is not modelled either, because integers are unbounded.
- Row order: rows are kept in insertion order, while SQLite scans a rowid table in rowid order.
  No modelled result depends on it: key lookups find at most one row, and the rows of a general
  query are the `resultSet` parameter.
- Name namespace: index names are checked only against index names, while SQLite also refuses an
  index named like a table and a table named like an index.
- Identifier case: table, column and index names are compared as exact strings, while SQLite
  folds ASCII case. `table_Foo` and `table_foo` are two tables in the model and one in SQLite,
  and adding a column `Name` beside `name` succeeds in the model but fails in SQLite.
- Column order in CREATE TABLE: the model's columns are a map, because dictionary iteration
  order is unspecified.
- `SQLiteTypeDecoder`, `SQLiteRecordEncoder` and `SQLiteRecordDecoder`: they are not part of
  this model. They are given as an `ObjectType`'s field map and a `Codec`'s two partial
  functions.
- Encryption: `md5HashString`, `setKey` and the password are foreign calls. This includes the
  missing re-keying in `clearAll`.
- `randomData` (a foreign random source).
- `URLKVFileService`, `KVFileServiceAide` and the demo app: file and JSON plumbing outside the
  core.
- FMDatabaseQueue serialisation: operations are atomic sequential steps.
- A failing BEGIN or COMMIT: a transaction commits unless the block asks for a rollback, as FMDB
  does when neither fails.
- InnerAide.CreateTableIfNotExists: rejects a key that is not a field, because the model's tables
  always have a key. SQLite would instead create a table with no primary key from the inline
  clause.
- OrmService.Creation: a type with no fields produces malformed CREATE TABLE text. SQLite
  rejects it even when the table exists, while the model treats CREATE TABLE IF NOT EXISTS on an
  existing table as a no-op.
- Catalog storage: the catalog is held apart from the tables, so a custom table named
  `cico_orm_table_info` does not clash with it as it would in SQLite.
- Swift hex parsing: `UInt8(_:radix:)` also accepts a leading sign, and `count` counts grapheme
  clusters. The model accepts hex digits only and counts characters.
- `Hex.byte` is a newtype for the values 0-255. `Data` is a sequence of it.

## Findings

| source | as written | input that shows it | evidently intended | confidence | as-written member | corrected member |
|---|---|---|---|---|---|---|
| CICOPersistent/orm_db/ORMDBService.swift:595-605 | a table that exists but is tracked for another type goes through `createTableAndIndexs`, whose CREATE TABLE IF NOT EXISTS leaves its columns unchanged, and then the catalog records the new type as current | table "table_shared" with column `id` tracked for type A at version 5; `writeObjectArray([])` of type B with fields `id` and `age` at version 1. The array is empty, so nothing sets rollback, and the catalog row (table_shared, B, 1) commits without an `age` column. From then on reconciliation finds B current, and every write of a B row carrying `age` fails | adopting an existing table for a type aligns its columns and indexes as an upgrade does, so the catalog is never ahead of the schema | not executed | ServiceProperties.MismatchLeavesCatalogAheadOfSchema | OrmService.AligningFixTable, ServiceProperties.AligningFixTableCoversFields |
| CICOPersistent/orm_db/ORMDBService.swift:231-236 | `clearAll` deletes the file and reopens a queue on the same path, but does not re-create the `cico_orm_table_info` catalog table that `initDB` creates (lines 488-497) | `clearAll()` returning true, then `writeObject(x)` for any `x`: reconciliation creates the table, then the catalog REPLACE fails for lack of the catalog table, so the write rolls back and returns false. Every later write and non-nil update fails the same way until the service is re-created | the reopened connection goes through the same catalog set-up as `initDB`, so writes succeed again | not executed | OrmService.ORMDBService.ClearAll, ServiceProperties.ClearedStoreRejectsWrites | OrmService.ORMDBService.ClearAllAndReinitialize, ServiceProperties.ReinitializedStoreAcceptsWrites |
