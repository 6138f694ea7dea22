/**
 * `ORMDBService` (CICOPersistent/orm_db/ORMDBService.swift): the catalog of tracked tables, the
 * reconciliation of a table with its object type (`fixTableIfNeeded`), and the public
 * operations, each run in one transaction that is rolled back when a step fails.
 *
 * Each operation is a method proved against a function of the database state: `FixTable`,
 * `WriteOutcome`, `ReadOutcome` and their siblings. Properties relating several operations
 * are lemmas in `ServiceProperties`.
 */
module OrmService {
  import opened Wrappers
  import opened Engine
  import opened InnerAide

  /**
   * What the service learns from a type conforming to the ORM protocol: its name, its stored
   * properties with their SQLite types, its primary-key column, its index columns and its
   * version.
   */
  datatype ObjectType = ObjectType(
    name: string,
    fields: map<string, SqlType>,
    primaryKeyColumnName: string,
    indexColumnNameArray: Option<seq<string>>,
    version: int)

  /** The Codable conversion between an object and a table row; either direction may fail. */
  datatype Codec<!T> = Codec(encode: T -> Option<Row>, decode: Row -> Option<T>)

  /** What a transaction leaves behind: the value the operation returns and the committed state. */
  datatype Outcome = Outcome(result: bool, state: State)

  /** `readORMTableInfo`: the catalog row for `tableName`, but only when it names this type. */
  function TableInfoFor(s: State, failing: set<Stmt>, objectTypeName: string, tableName: string): (info: Option<TableInfo>)
    ensures info.Some? <==>
      && SelectCatalog(tableName) !in failing && s.catalogTable && tableName in s.catalog
      && s.catalog[tableName].objectTypeName == objectTypeName
    ensures info.Some? ==> info.value == TableInfo(tableName, objectTypeName, s.catalog[tableName].objectTypeVersion)
  {
    match CatalogRow(s, failing, tableName)
    case None => None
    case Some(row) =>
      if row.objectTypeName == objectTypeName then Some(TableInfo(tableName, row.objectTypeName, row.objectTypeVersion))
      else None
  }

  /** `isTableExist`: the catalog tracks `tableName` for this type. */
  predicate Tracked(s: State, failing: set<Stmt>, objectTypeName: string, tableName: string) {
    TableInfoFor(s, failing, objectTypeName, tableName).Some?
  }

  /** One `CREATE INDEX` per listed column, in list order, stopping at the first failure. */
  function CreateIndexesInOrder(s: State, failing: set<Stmt>, tableName: string, indexColumnNames: seq<string>): (r: Option<State>)
    ensures r.Some? ==> r.value.catalogTable == s.catalogTable && r.value.catalog == s.catalog && r.value.tables == s.tables
    ensures r.Some? ==> s.indexes.Keys <= r.value.indexes.Keys
    decreases |indexColumnNames|
  {
    if indexColumnNames == [] then Some(s)
    else
      var c := indexColumnNames[0];
      match Execute(s, failing, CreateIndex(IndexName(c, tableName), tableName, c))
      case None => None
      case Some(next) => CreateIndexesInOrder(next, failing, tableName, indexColumnNames[1..])
  }

  /** What `createTableAndIndexs` does: create the table, then its indexes, then record the type in the catalog. */
  function Creation(s: State, failing: set<Stmt>, ty: ObjectType, tableName: string): (r: Option<State>)
    ensures r.Some? ==> tableName in r.value.tables
    ensures r.Some? ==>
      && r.value.catalogTable && tableName in r.value.catalog
      && r.value.catalog[tableName] == TableInfo(tableName, ty.name, ty.version)
  {
    match Execute(s, failing, CreateTable(tableName, ColumnDefs(ty.fields, ty.primaryKeyColumnName, false), ty.primaryKeyColumnName))
    case None => None
    case Some(created) =>
      match CreateIndexesInOrder(created, failing, tableName, IndexColumns(ty.indexColumnNameArray))
      case None => None
      case Some(indexed) => Execute(indexed, failing, ReplaceCatalog(TableInfo(tableName, ty.name, ty.version)))
  }

  /** The upgrade branch of `fixTableIfNeeded`: missing columns, then indexes, then the new version. */
  function Upgrade(s: State, failing: set<Stmt>, ty: ObjectType, tableName: string): (r: Option<State>)
    ensures r.Some? ==>
      && r.value.catalogTable && tableName in r.value.catalog
      && r.value.catalog[tableName] == TableInfo(tableName, ty.name, ty.version)
  {
    match ColumnUpgrade(s, failing, tableName, ty.fields)
    case None => None
    case Some(widened) =>
      match IndexUpgrade(widened, failing, tableName, ty.indexColumnNameArray)
      case None => None
      case Some(indexed) => Execute(indexed, failing, ReplaceCatalog(TableInfo(tableName, ty.name, ty.version)))
  }

  /**
   * `fixTableIfNeeded`: create the table when the catalog does not track it for this type,
   * upgrade it when the recorded version is older than the type's, leave it alone otherwise.
   * None means the transaction must be rolled back.
   */
  function FixTable(s: State, failing: set<Stmt>, ty: ObjectType, tableName: string): (r: Option<State>)
    ensures r.Some? ==>
      && r.value.catalogTable && tableName in r.value.catalog
      && r.value.catalog[tableName].objectTypeName == ty.name
      && r.value.catalog[tableName].objectTypeVersion >= ty.version
  {
    match TableInfoFor(s, failing, ty.name, tableName)
    case None => Creation(s, failing, ty, tableName)
    case Some(info) =>
      if info.objectTypeVersion >= ty.version then Some(s) else Upgrade(s, failing, ty, tableName)
  }

  /**
   * Reconciliation as evidently intended: a table that exists but is not tracked for this type is
   * adopted the way an upgrade aligns a table (missing columns, then indexes, then the catalog
   * row) instead of by a CREATE TABLE IF NOT EXISTS that leaves its columns as they were.
   */
  function AligningFixTable(s: State, failing: set<Stmt>, ty: ObjectType, tableName: string): (r: Option<State>)
    ensures r.Some? ==>
      && r.value.catalogTable && tableName in r.value.catalog
      && r.value.catalog[tableName].objectTypeName == ty.name
      && r.value.catalog[tableName].objectTypeVersion >= ty.version
  {
    match TableInfoFor(s, failing, ty.name, tableName)
    case None =>
      if tableName in s.tables then Upgrade(s, failing, ty, tableName) else Creation(s, failing, ty, tableName)
    case Some(info) =>
      if info.objectTypeVersion >= ty.version then Some(s) else Upgrade(s, failing, ty, tableName)
  }

  /** `pReadObject`: the object stored under `primaryKeyValue`, when the catalog tracks the table for this type. */
  function ReadOutcome<T>(s: State, failing: set<Stmt>, ty: ObjectType, codec: Codec<T>, tableName: string,
                          primaryKeyValue: Value): (record: Option<T>)
    ensures !Tracked(s, failing, ty.name, tableName) ==> record.None?
  {
    if Tracked(s, failing, ty.name, tableName)
    then ReadRecord(s, failing, codec.decode, tableName, ty.primaryKeyColumnName, primaryKeyValue)
    else None
  }

  /** `pReadObjectArray`: the decoded result of the query, when the catalog tracks the table for this type. */
  function ReadArrayOutcome<T>(s: State, failing: set<Stmt>, ty: ObjectType, codec: Codec<T>, tableName: string,
                               whereString: Option<string> := None, orderByName: Option<string> := None, descending: bool := true,
                               limit: Option<int> := None, resultSet: seq<Row>): (records: Option<seq<T>>)
    requires tableName in s.tables ==> QueryResult(s.tables[tableName], whereString.None? && limit.None?, resultSet)
    ensures !Tracked(s, failing, ty.name, tableName) ==> records.None?
  {
    if Tracked(s, failing, ty.name, tableName)
    then ReadRecords(s, failing, codec.decode, tableName, whereString, orderByName, descending, limit, resultSet)
    else None
  }

  /** `pWriteObject`: reconcile, then replace the row; any failure rolls the whole transaction back. */
  function WriteOutcome<T>(s: State, failing: set<Stmt>, ty: ObjectType, codec: Codec<T>, tableName: string, record: T): (o: Outcome)
    ensures !o.result ==> o.state == s
  {
    match FixTable(s, failing, ty, tableName)
    case None => Outcome(false, s)
    case Some(ready) =>
      match Replaced(ready, failing, tableName, codec.encode(record))
      case None => Outcome(false, s)
      case Some(written) => Outcome(true, written)
  }

  /** Replacing the rows of `records` in order: all of them, or None at the first failure. */
  function ReplaceAll<T>(s: State, failing: set<Stmt>, tableName: string, encode: T -> Option<Row>, records: seq<T>): (r: Option<State>)
    ensures r.Some? ==>
      && r.value.catalogTable == s.catalogTable && r.value.catalog == s.catalog
      && r.value.indexes == s.indexes && r.value.tables.Keys == s.tables.Keys
    decreases |records|
  {
    if records == [] then Some(s)
    else
      match Replaced(s, failing, tableName, encode(records[0]))
      case None => None
      case Some(next) => ReplaceAll(next, failing, tableName, encode, records[1..])
  }

  /**
   * `pWriteObjectArray`: reconcile, then replace every row in one transaction. An empty array
   * returns false, yet the transaction commits, reconciliation included.
   */
  function WriteArrayOutcome<T>(s: State, failing: set<Stmt>, ty: ObjectType, codec: Codec<T>, tableName: string,
                                records: seq<T>): (o: Outcome)
    ensures o.result ==> records != []
  {
    match FixTable(s, failing, ty, tableName)
    case None => Outcome(false, s)
    case Some(ready) =>
      if records == [] then Outcome(false, ready)
      else
        match ReplaceAll(ready, failing, tableName, codec.encode, records)
        case None => Outcome(false, s)
        case Some(written) => Outcome(true, written)
  }

  /**
   * `pUpdateObject`: read the current object (nil when the table is not tracked), hand it to the
   * closure, and write what it returns; a nil answer is a successful update that writes nothing.
   */
  function UpdateOutcome<T>(s: State, failing: set<Stmt>, ty: ObjectType, codec: Codec<T>, tableName: string,
                            primaryKeyValue: Value, updateClosure: Option<T> -> Option<T>): (o: Outcome)
    ensures !o.result ==> o.state == s
  {
    match updateClosure(ReadOutcome(s, failing, ty, codec, tableName, primaryKeyValue))
    case None => Outcome(true, s)
    case Some(newRecord) => WriteOutcome(s, failing, ty, codec, tableName, newRecord)
  }

  /** `pRemoveObject`: nothing to do (and success) when the table is not tracked, else delete the row. */
  function RemoveOutcome(s: State, failing: set<Stmt>, ty: ObjectType, tableName: string, primaryKeyValue: Value): (o: Outcome)
    ensures !o.result ==> o.state == s
  {
    if !Tracked(s, failing, ty.name, tableName) then Outcome(true, s)
    else
      match Execute(s, failing, Delete(tableName, ty.primaryKeyColumnName, primaryKeyValue))
      case None => Outcome(false, s)
      case Some(deleted) => Outcome(true, deleted)
  }

  /** `pRemoveObjectTable`: nothing to do when the table is not tracked, else drop it and forget its catalog row. */
  function RemoveTableOutcome(s: State, failing: set<Stmt>, ty: ObjectType, tableName: string): (o: Outcome)
    ensures !o.result ==> o.state == s
  {
    if !Tracked(s, failing, ty.name, tableName) then Outcome(true, s)
    else
      match Execute(s, failing, DropTable(tableName))
      case None => Outcome(false, s)
      case Some(dropped) =>
        match Execute(dropped, failing, DeleteCatalog(tableName))
        case None => Outcome(false, s)
        case Some(forgotten) => Outcome(true, forgotten)
  }

  /** `readORMTableInfo` over the connection. */
  method ReadORMTableInfo(db: Database, objectTypeName: string, tableName: string) returns (tableInfo: Option<TableInfo>)
    ensures tableInfo == TableInfoFor(db.state, db.failing, objectTypeName, tableName)
  {
    tableInfo := None;
    var row := db.QueryCatalog(tableName);
    if row.Some? && row.value.objectTypeName == objectTypeName {
      tableInfo := Some(TableInfo(tableName, row.value.objectTypeName, row.value.objectTypeVersion));
    }
  }

  /** `writeORMTableInfo`: `REPLACE INTO` the catalog. */
  method WriteORMTableInfo(db: Database, tableInfo: TableInfo) returns (ok: bool)
    modifies db
    ensures ok == Execute(old(db.state), db.failing, ReplaceCatalog(tableInfo)).Some?
    ensures db.state == if ok then Execute(old(db.state), db.failing, ReplaceCatalog(tableInfo)).value else old(db.state)
  {
    ok := db.ExecuteUpdate(ReplaceCatalog(tableInfo));
  }

  /** `isTableExist`. */
  method IsTableExist(db: Database, objectTypeName: string, tableName: string) returns (exists_: bool)
    ensures exists_ == Tracked(db.state, db.failing, objectTypeName, tableName)
  {
    var tableInfo := ReadORMTableInfo(db, objectTypeName, tableName);
    exists_ := tableInfo.Some?;
  }

  /** `createTableAndIndexs`: the table, then one index per listed column in order, then the catalog row. */
  method CreateTableAndIndexes(db: Database, ty: ObjectType, tableName: string) returns (ok: bool)
    modifies db
    ensures ok == Creation(old(db.state), db.failing, ty, tableName).Some?
    ensures ok ==> db.state == Creation(old(db.state), db.failing, ty, tableName).value
  {
    ok := CreateTableIfNotExists(db, tableName, ty.fields, ty.primaryKeyColumnName, false);
    if !ok {
      return;
    }
    ghost var created := db.state;
    var indexColumnNames := IndexColumns(ty.indexColumnNameArray);
    for i := 0 to |indexColumnNames|
      invariant CreateIndexesInOrder(created, db.failing, tableName, indexColumnNames)
             == CreateIndexesInOrder(db.state, db.failing, tableName, indexColumnNames[i..])
    {
      assert indexColumnNames[i..][1..] == indexColumnNames[i + 1..];
      var indexColumnName := indexColumnNames[i];
      ok := db.ExecuteUpdate(CreateIndex(IndexName(indexColumnName, tableName), tableName, indexColumnName));
      if !ok {
        return;
      }
    }
    assert indexColumnNames[|indexColumnNames|..] == [];
    ok := WriteORMTableInfo(db, TableInfo(tableName, ty.name, ty.version));
  }

  /** `fixTableIfNeeded`: the three-way decision on the catalog row, then the chosen branch. */
  method FixTableIfNeeded(db: Database, ty: ObjectType, tableName: string) returns (ok: bool)
    modifies db
    ensures ok == FixTable(old(db.state), db.failing, ty, tableName).Some?
    ensures ok ==> db.state == FixTable(old(db.state), db.failing, ty, tableName).value
  {
    var tableInfo := ReadORMTableInfo(db, ty.name, tableName);
    if tableInfo.None? {
      ok := CreateTableAndIndexes(db, ty, tableName);
      return;
    }
    if tableInfo.value.objectTypeVersion >= ty.version {
      return true;
    }
    ok := UpgradeTableColumn(db, tableName, ty.fields);
    if !ok {
      return;
    }
    ok := UpgradeTableIndex(db, tableName, ty.indexColumnNameArray);
    if !ok {
      return;
    }
    ok := WriteORMTableInfo(db, TableInfo(tableName, ty.name, ty.version));
  }

  /**
   * The service object. `dbQueue` is the serial connection to the database file; it is nil when
   * opening the database failed, and every operation then does nothing.
   */
  class ORMDBService {
    var dbQueue: Database?

    /**
     * `initDB`: create the directory, open the file, create the catalog table; the connection
     * is kept only when all three succeed. `dirCreated` and `connection` stand for the file system's
     * answers, `connection` being nil when the file does not open.
     */
    constructor (dirCreated: bool, connection: Database?)
      modifies connection
      ensures dbQueue != null <==>
        dirCreated && connection != null && Execute(old(connection.state), connection.failing, CreateCatalogTable).Some?
      ensures dbQueue != null ==> dbQueue == connection && dbQueue.state == old(connection.state).(catalogTable := true)
    {
      dbQueue := null;
      new;
      if dirCreated && connection != null {
        var result := connection.ExecuteUpdate(CreateCatalogTable);
        if result {
          dbQueue := connection;
        }
      }
    }

    /** `readObject`: the object stored under `primaryKeyValue`, nil when there is none or the table is not tracked. */
    method ReadObject<T>(ty: ObjectType, codec: Codec<T>, primaryKeyValue: Value, customTableName: Option<string> := None)
      returns (record: Option<T>)
      ensures dbQueue == null ==> record.None?
      ensures dbQueue != null ==>
        record == ReadOutcome(dbQueue.state, dbQueue.failing, ty, codec, TableName(ty.name, customTableName), primaryKeyValue)
    {
      record := None;
      var db := dbQueue;
      if db == null {
        return;
      }
      var tableName := TableName(ty.name, customTableName);
      var tableExist := IsTableExist(db, ty.name, tableName);
      if !tableExist {
        return;
      }
      record := InnerAide.ReadObject(db, codec.decode, tableName, ty.primaryKeyColumnName, primaryKeyValue);
    }

    /** `readObjectArray`: the decoded rows of `SELECT * ...`, nil when the table is not tracked or any step fails. */
    method ReadObjectArray<T>(ty: ObjectType, codec: Codec<T>, whereString: Option<string> := None,
                              orderByName: Option<string> := None, descending: bool := true, limit: Option<int> := None,
                              customTableName: Option<string> := None, resultSet: seq<Row>)
      returns (records: Option<seq<T>>)
      requires dbQueue != null && TableName(ty.name, customTableName) in dbQueue.state.tables ==>
        QueryResult(dbQueue.state.tables[TableName(ty.name, customTableName)], whereString.None? && limit.None?, resultSet)
      ensures dbQueue == null ==> records.None?
      ensures dbQueue != null ==>
        records == ReadArrayOutcome(dbQueue.state, dbQueue.failing, ty, codec, TableName(ty.name, customTableName),
                                    whereString, orderByName, descending, limit, resultSet)
    {
      records := None;
      var db := dbQueue;
      if db == null {
        return;
      }
      var tableName := TableName(ty.name, customTableName);
      var tableExist := IsTableExist(db, ty.name, tableName);
      if !tableExist {
        return;
      }
      records := InnerAide.ReadObjectArray(db, codec.decode, tableName, whereString, orderByName, descending, limit, resultSet);
    }

    /** `writeObject`: reconcile the table and replace the row in one transaction. */
    method WriteObject<T>(ty: ObjectType, codec: Codec<T>, record: T, customTableName: Option<string> := None) returns (result: bool)
      modifies dbQueue
      ensures dbQueue == null ==> !result
      ensures dbQueue != null ==>
        var o := WriteOutcome(old(dbQueue.state), dbQueue.failing, ty, codec, TableName(ty.name, customTableName), record);
        result == o.result && dbQueue.state == o.state
    {
      result := false;
      var db := dbQueue;
      if db == null {
        return;
      }
      var tableName := TableName(ty.name, customTableName);
      var snapshot := db.state;
      var isTableReady := FixTableIfNeeded(db, ty, tableName);
      if !isTableReady {
        db.Rollback(snapshot);
        return;
      }
      result := ReplaceRecord(db, tableName, codec.encode, record);
      if !result {
        db.Rollback(snapshot);
      }
    }

    /** `writeObjectArray`: reconcile the table and replace every row in one transaction. */
    method WriteObjectArray<T>(ty: ObjectType, codec: Codec<T>, records: seq<T>, customTableName: Option<string> := None)
      returns (result: bool)
      modifies dbQueue
      ensures dbQueue == null ==> !result
      ensures dbQueue != null ==>
        var o := WriteArrayOutcome(old(dbQueue.state), dbQueue.failing, ty, codec, TableName(ty.name, customTableName), records);
        result == o.result && dbQueue.state == o.state
    {
      result := false;
      var db := dbQueue;
      if db == null {
        return;
      }
      var tableName := TableName(ty.name, customTableName);
      var snapshot := db.state;
      var isTableReady := FixTableIfNeeded(db, ty, tableName);
      if !isTableReady {
        db.Rollback(snapshot);
        return;
      }
      ghost var ready := db.state;
      for i := 0 to |records|
        invariant result == (i > 0)
        invariant ReplaceAll(ready, db.failing, tableName, codec.encode, records)
               == ReplaceAll(db.state, db.failing, tableName, codec.encode, records[i..])
      {
        assert records[i..][1..] == records[i + 1..];
        result := ReplaceRecord(db, tableName, codec.encode, records[i]);
        if !result {
          db.Rollback(snapshot);
          return;
        }
      }
      assert records[|records|..] == [];
    }

    /**
     * `updateObject`: read, ask the closure, write its answer. Returns the value the completion
     * closure receives.
     */
    method UpdateObject<T>(ty: ObjectType, codec: Codec<T>, primaryKeyValue: Value, customTableName: Option<string> := None,
                           updateClosure: Option<T> -> Option<T>) returns (result: bool)
      modifies dbQueue
      ensures dbQueue == null ==> !result
      ensures dbQueue != null ==>
        var o := UpdateOutcome(old(dbQueue.state), dbQueue.failing, ty, codec, TableName(ty.name, customTableName),
                               primaryKeyValue, updateClosure);
        result == o.result && dbQueue.state == o.state
    {
      result := false;
      var db := dbQueue;
      if db == null {
        return;
      }
      var tableName := TableName(ty.name, customTableName);
      var snapshot := db.state;
      var record: Option<T> := None;
      var tableExist := IsTableExist(db, ty.name, tableName);
      if tableExist {
        record := InnerAide.ReadObject(db, codec.decode, tableName, ty.primaryKeyColumnName, primaryKeyValue);
      }
      var newRecord := updateClosure(record);
      if newRecord.None? {
        result := true;
        return;
      }
      var isTableReady := FixTableIfNeeded(db, ty, tableName);
      if !isTableReady {
        db.Rollback(snapshot);
        return;
      }
      result := ReplaceRecord(db, tableName, codec.encode, newRecord.value);
      if !result {
        db.Rollback(snapshot);
      }
    }

    /** `removeObject`: delete the row stored under `primaryKeyValue`. */
    method RemoveObject(ty: ObjectType, primaryKeyValue: Value, customTableName: Option<string> := None) returns (result: bool)
      modifies dbQueue
      ensures dbQueue == null ==> !result
      ensures dbQueue != null ==>
        var o := RemoveOutcome(old(dbQueue.state), dbQueue.failing, ty, TableName(ty.name, customTableName), primaryKeyValue);
        result == o.result && dbQueue.state == o.state
    {
      result := false;
      var db := dbQueue;
      if db == null {
        return;
      }
      var tableName := TableName(ty.name, customTableName);
      var snapshot := db.state;
      var tableExist := IsTableExist(db, ty.name, tableName);
      if !tableExist {
        result := true;
        return;
      }
      result := DeleteRecord(db, tableName, ty.primaryKeyColumnName, primaryKeyValue);
      if !result {
        db.Rollback(snapshot);
      }
    }

    /** `removeObjectTable`: drop the table and delete its catalog row. */
    method RemoveObjectTable(ty: ObjectType, customTableName: Option<string> := None) returns (result: bool)
      modifies dbQueue
      ensures dbQueue == null ==> !result
      ensures dbQueue != null ==>
        var o := RemoveTableOutcome(old(dbQueue.state), dbQueue.failing, ty, TableName(ty.name, customTableName));
        result == o.result && dbQueue.state == o.state
    {
      result := false;
      var db := dbQueue;
      if db == null {
        return;
      }
      var tableName := TableName(ty.name, customTableName);
      var snapshot := db.state;
      var tableExist := IsTableExist(db, ty.name, tableName);
      if !tableExist {
        result := true;
        return;
      }
      result := db.ExecuteUpdate(DropTable(tableName));
      if !result {
        db.Rollback(snapshot);
        return;
      }
      result := db.ExecuteUpdate(DeleteCatalog(tableName));
      if !result {
        db.Rollback(snapshot);
      }
    }

    /**
     * `clearAll` as written: drop the connection, delete the database file and open a new
     * connection on the same path, returning whether the deletion succeeded. `removed` is the
     * file system's answer, `leftover` what the file still holds when the deletion failed,
     * `opens` whether the new connection opens and `failing` its faults. The catalog table is
     * not re-created on the new connection.
     */
    method ClearAll(removed: bool, leftover: State, opens: bool, failing: set<Stmt>) returns (result: bool)
      modifies this
      ensures result == removed
      ensures dbQueue != null <==> opens
      ensures dbQueue != null ==> fresh(dbQueue) && dbQueue.failing == failing && dbQueue.state == ClearedFile(removed, leftover)
    {
      dbQueue := null;
      result := removed;
      if opens {
        dbQueue := new Database(ClearedFile(removed, leftover), failing);
      }
    }

    /**
     * `clearAll` as evidently intended: the new connection goes through the same catalog set-up
     * as `initDB` and is kept only when that succeeds.
     */
    method ClearAllAndReinitialize(removed: bool, leftover: State, opens: bool, failing: set<Stmt>) returns (result: bool)
      modifies this
      ensures result == removed
      ensures dbQueue != null <==> opens && Execute(ClearedFile(removed, leftover), failing, CreateCatalogTable).Some?
      ensures dbQueue != null ==>
        fresh(dbQueue) && dbQueue.failing == failing && dbQueue.state == ClearedFile(removed, leftover).(catalogTable := true)
    {
      dbQueue := null;
      result := removed;
      if opens {
        var reopened := new Database(ClearedFile(removed, leftover), failing);
        var created := reopened.ExecuteUpdate(CreateCatalogTable);
        if created {
          dbQueue := reopened;
        }
      }
    }
  }

  /** The database file after `clearAll` tried to delete it: empty when the deletion succeeded. */
  function ClearedFile(removed: bool, leftover: State): (s: State)
    ensures removed ==> s == Empty
  {
    if removed then Empty else leftover
  }
}
