/**
 * `ORMDBServiceInnerAide` (CICOPersistent/orm_db/internal/ORMDBServiceInnerAide.swift): table and
 * index naming, table creation, the two upgrade steps of reconciliation and record access, each
 * as a method over the engine connection proved against a function of the database state.
 */
module InnerAide {
  import opened Wrappers
  import opened Engine

  /** `tableName`: the custom name when one is given, else "table_" and the type's name. */
  function TableName(typeName: string, customTableName: Option<string> := None): (r: string)
    ensures customTableName.Some? ==> r == customTableName.value
    ensures customTableName.None? ==> |r| == |typeName| + 6 && r[..6] == "table_" && r[6..] == typeName
  {
    match customTableName
    case Some(name) => name
    case None => "table_" + typeName
  }

  /** `indexName`: "index_<column>_of_<table>". */
  function IndexName(indexColumnName: string, tableName: string): (r: string)
    ensures |r| == |indexColumnName| + |tableName| + 10
    ensures r[..6] == "index_" && r[6..6 + |indexColumnName|] == indexColumnName
    ensures r[6 + |indexColumnName|..10 + |indexColumnName|] == "_of_" && r[10 + |indexColumnName|..] == tableName
  {
    "index_" + indexColumnName + "_of_" + tableName
  }

  /** Default table names tell types apart: distinct type names never share a default table. */
  lemma DefaultTableNamesDistinct(typeA: string, typeB: string)
    requires typeA != typeB
    ensures TableName(typeA, None) != TableName(typeB, None)
  {
    assert TableName(typeA, None)[6..] == typeA;
    assert TableName(typeB, None)[6..] == typeB;
  }

  /** Within one table the index name determines the column: set differences of names are differences of columns. */
  lemma IndexNameInjective(columnA: string, columnB: string, tableName: string)
    requires IndexName(columnA, tableName) == IndexName(columnB, tableName)
    ensures columnA == columnB
  {
    var n := IndexName(columnA, tableName);
    assert |columnA| == |columnB|;
    assert n[6..6 + |columnA|] == columnA;
    assert IndexName(columnB, tableName)[6..6 + |columnB|] == columnB;
  }

  /** Across tables the names can coincide: the naming scheme is not injective in the table. */
  lemma IndexNamesCollideAcrossTables()
    ensures IndexName("a_of_b", "c") == IndexName("a", "b_of_c")
  {
  }

  /**
   * The column definitions `createTableIfNotExists` writes: every field with its storage type,
   * NOT NULL and PRIMARY KEY on the primary-key column only, AUTOINCREMENT on it only when
   * asked for and the column is INTEGER.
   */
  function ColumnDefs(fields: map<string, SqlType>, primaryKey: string, autoIncrement: bool): map<string, ColumnDef> {
    map name | name in fields ::
      ColumnDef(fields[name], name == primaryKey, name == primaryKey,
                name == primaryKey && autoIncrement && fields[name] == INTEGER)
  }

  function KeyColumns(defs: map<string, ColumnDef>): set<string> {
    set name | name in defs && defs[name].primaryKey
  }

  /** Exactly one column is the key when the key is a field, none otherwise; only the key may be AUTOINCREMENT or NOT NULL. */
  lemma ColumnDefsMarkOnlyTheKey(fields: map<string, SqlType>, primaryKey: string, autoIncrement: bool)
    ensures ColumnDefs(fields, primaryKey, autoIncrement).Keys == fields.Keys
    ensures KeyColumns(ColumnDefs(fields, primaryKey, autoIncrement)) == if primaryKey in fields then {primaryKey} else {}
    ensures forall name :: name in fields && name != primaryKey ==>
      var d := ColumnDefs(fields, primaryKey, autoIncrement)[name]; !d.notNull && !d.primaryKey && !d.autoIncrement
    ensures primaryKey in fields ==>
      ColumnDefs(fields, primaryKey, autoIncrement)[primaryKey].autoIncrement == (autoIncrement && fields[primaryKey] == INTEGER)
  {
    var defs := ColumnDefs(fields, primaryKey, autoIncrement);
    assert forall name :: name in KeyColumns(defs) ==> name == primaryKey;
  }

  /**
   * `createTableIfNotExists`: one column definition per field, built field by field, then
   * `CREATE TABLE IF NOT EXISTS`.
   */
  method CreateTableIfNotExists(db: Database, tableName: string, fields: map<string, SqlType>,
                                primaryKeyColumnName: string, autoIncrement: bool) returns (ok: bool)
    modifies db
    ensures var stmt := CreateTable(tableName, ColumnDefs(fields, primaryKeyColumnName, autoIncrement), primaryKeyColumnName);
      && ok == Execute(old(db.state), db.failing, stmt).Some?
      && db.state == if ok then Execute(old(db.state), db.failing, stmt).value else old(db.state)
  {
    var defs: map<string, ColumnDef> := map[];
    var remaining := fields.Keys;
    while remaining != {}
      invariant remaining <= fields.Keys
      invariant defs == map name | name in fields.Keys - remaining ::
        ColumnDef(fields[name], name == primaryKeyColumnName, name == primaryKeyColumnName,
                  name == primaryKeyColumnName && autoIncrement && fields[name] == INTEGER)
      decreases remaining
    {
      var name :| name in remaining;
      var isKey := name == primaryKeyColumnName;
      defs := defs[name := ColumnDef(fields[name], isKey, isKey, isKey && autoIncrement && fields[name] == INTEGER)];
      remaining := remaining - {name};
    }
    assert fields.Keys - remaining == fields.Keys;
    ok := db.ExecuteUpdate(CreateTable(tableName, defs, primaryKeyColumnName));
  }

  /** The catalog is untouched: schema steps never write it. */
  ghost predicate SameCatalog(a: State, b: State) {
    a.catalogTable == b.catalogTable && a.catalog == b.catalog
  }

  function NewColumns(fields: map<string, SqlType>, names: set<string>): map<string, ColumnDef>
    requires names <= fields.Keys
  {
    map name | name in names :: NewColumn(fields[name])
  }

  /** Every `ALTER TABLE ... ADD COLUMN` for `names` would succeed. */
  predicate CanAddColumns(s: State, failing: set<Stmt>, tableName: string, fields: map<string, SqlType>, names: set<string>)
    requires names <= fields.Keys
  {
    forall name :: name in names ==>
      && AddColumn(tableName, name, fields[name]) !in failing
      && tableName in s.tables
      && name !in s.tables[tableName].columns
  }

  /** Adding the columns `names` in any order: all of them, or None if any one fails. */
  function AddColumns(s: State, failing: set<Stmt>, tableName: string, fields: map<string, SqlType>, names: set<string>): Option<State>
    requires names <= fields.Keys
  {
    if names == {} then Some(s)
    else if !CanAddColumns(s, failing, tableName, fields, names) then None
    else
      var t := s.tables[tableName];
      Some(WithTable(s, tableName, t.(columns := t.columns + NewColumns(fields, names))))
  }

  /** What `upgradeTableColumn` does: add the fields `PRAGMA TABLE_INFO` does not list. */
  function ColumnUpgrade(s: State, failing: set<Stmt>, tableName: string, fields: map<string, SqlType>): (r: Option<State>)
    ensures r.Some? && fields != map[] ==> tableName in r.value.tables && fields.Keys <= r.value.tables[tableName].columns.Keys
  {
    MissingColumnsAdded(s, failing, tableName, fields);
    AddColumns(s, failing, tableName, fields, fields.Keys - ColumnNames(s, failing, tableName))
  }

  lemma MissingColumnsAdded(s: State, failing: set<Stmt>, tableName: string, fields: map<string, SqlType>)
    ensures var r := AddColumns(s, failing, tableName, fields, fields.Keys - ColumnNames(s, failing, tableName));
      r.Some? && fields != map[] ==> tableName in r.value.tables && fields.Keys <= r.value.tables[tableName].columns.Keys
  {
    var present := ColumnNames(s, failing, tableName);
    var missing := fields.Keys - present;
    if AddColumns(s, failing, tableName, fields, missing).Some? && fields != map[] {
      var f :| f in fields;
      if missing == {} {
        assert f in fields.Keys && f !in missing;
        forall g | g in fields ensures g in s.tables[tableName].columns {
          assert g in fields.Keys && g !in missing;
        }
      } else {
        var t := s.tables[tableName];
        var cols := t.columns + NewColumns(fields, missing);
        forall g | g in fields ensures g in cols {
          if g !in present {
            assert g in missing;
          }
        }
      }
    }
  }

  /** When no field is missing the column step succeeds and changes nothing. */
  lemma NothingMissingIsNoOp(s: State, failing: set<Stmt>, tableName: string, fields: map<string, SqlType>)
    requires fields.Keys <= ColumnNames(s, failing, tableName)
    ensures ColumnUpgrade(s, failing, tableName, fields) == Some(s)
  {
    assert fields.Keys - ColumnNames(s, failing, tableName) == {};
  }

  /** One more column: the closed form advances exactly as the engine does. */
  lemma AddColumnsStep(s: State, failing: set<Stmt>, tableName: string, fields: map<string, SqlType>,
                       done: set<string>, name: string, current: State)
    requires done <= fields.Keys && name in fields && name !in done
    requires AddColumns(s, failing, tableName, fields, done) == Some(current)
    ensures AddColumns(s, failing, tableName, fields, done + {name})
         == Execute(current, failing, AddColumn(tableName, name, fields[name]))
  {
    var next := done + {name};
    var stmt := AddColumn(tableName, name, fields[name]);
    if done == {} {
      assert next == {name};
      if Execute(current, failing, stmt).Some? {
        var t := s.tables[tableName];
        assert t.columns + NewColumns(fields, next) == t.columns[name := NewColumn(fields[name])];
      }
    } else {
      var t := s.tables[tableName];
      assert current.tables[tableName].columns == t.columns + NewColumns(fields, done);
      if Execute(current, failing, stmt).Some? {
        assert CanAddColumns(s, failing, tableName, fields, next);
        var cols := t.columns + NewColumns(fields, next);
        assert cols == (t.columns + NewColumns(fields, done))[name := NewColumn(fields[name])];
        var after := Execute(current, failing, stmt).value;
        assert after.tables == s.tables[tableName := t.(columns := cols)];
        assert after == WithTable(s, tableName, t.(columns := cols));
      } else {
        assert !CanAddColumns(s, failing, tableName, fields, next);
      }
    }
  }

  /** A failure among some columns is a failure of any larger set. */
  lemma AddColumnsFailureSpreads(s: State, failing: set<Stmt>, tableName: string, fields: map<string, SqlType>,
                                 some: set<string>, all: set<string>)
    requires some <= all <= fields.Keys
    requires AddColumns(s, failing, tableName, fields, some).None?
    ensures AddColumns(s, failing, tableName, fields, all).None?
  {
  }

  /**
   * `upgradeTableColumn`: query the existing columns, then `ADD COLUMN` each missing field,
   * stopping at the first failure.
   */
  method UpgradeTableColumn(db: Database, tableName: string, fields: map<string, SqlType>) returns (ok: bool)
    modifies db
    ensures ok == ColumnUpgrade(old(db.state), db.failing, tableName, fields).Some?
    ensures ok ==> db.state == ColumnUpgrade(old(db.state), db.failing, tableName, fields).value
    ensures SameCatalog(db.state, old(db.state)) && db.state.indexes == old(db.state.indexes)
  {
    ghost var s0 := db.state;
    var columnSet := db.QueryColumns(tableName);
    var needAddColumnSet := fields.Keys - columnSet;
    var remaining := needAddColumnSet;
    ghost var done: set<string> := {};
    while remaining != {}
      invariant remaining <= needAddColumnSet && done == needAddColumnSet - remaining
      invariant AddColumns(s0, db.failing, tableName, fields, done) == Some(db.state)
      invariant SameCatalog(db.state, s0) && db.state.indexes == s0.indexes
      decreases remaining
    {
      var columnName :| columnName in remaining;
      AddColumnsStep(s0, db.failing, tableName, fields, done, columnName, db.state);
      ok := db.ExecuteUpdate(AddColumn(tableName, columnName, fields[columnName]));
      if !ok {
        AddColumnsFailureSpreads(s0, db.failing, tableName, fields, done + {columnName}, needAddColumnSet);
        return;
      }
      remaining := remaining - {columnName};
      done := done + {columnName};
    }
    assert done == needAddColumnSet;
    ok := true;
  }

  /**
   * The index names an index-column list asks for, each mapped to its column; a repeated
   * column gives one name (the dictionary `upgradeTableIndex` builds).
   */
  function RequiredIndexes(tableName: string, indexColumnNames: seq<string>): (required: map<string, string>)
    ensures forall n :: n in required ==> required[n] in indexColumnNames && IndexName(required[n], tableName) == n
    ensures forall c :: c in indexColumnNames ==> IndexName(c, tableName) in required
  {
    if indexColumnNames == [] then map[]
    else
      var last := indexColumnNames[|indexColumnNames| - 1];
      var init := indexColumnNames[..|indexColumnNames| - 1];
      assert forall c :: c in indexColumnNames ==> c in init || c == last;
      RequiredIndexes(tableName, init)[IndexName(last, tableName) := last]
  }

  /** The required names are exactly the names of the listed columns, and each maps back to its own column. */
  lemma RequiredIndexesExact(tableName: string, indexColumnNames: seq<string>)
    ensures RequiredIndexes(tableName, indexColumnNames).Keys == set c | c in indexColumnNames :: IndexName(c, tableName)
    ensures forall c :: c in indexColumnNames ==> RequiredIndexes(tableName, indexColumnNames)[IndexName(c, tableName)] == c
  {
    var required := RequiredIndexes(tableName, indexColumnNames);
    forall c | c in indexColumnNames
      ensures required[IndexName(c, tableName)] == c
    {
      IndexNameInjective(required[IndexName(c, tableName)], c, tableName);
    }
  }

  function IndexColumns(indexColumnNameArray: Option<seq<string>>): seq<string> {
    match indexColumnNameArray
    case Some(names) => names
    case None => []
  }

  predicate CanCreateIndexes(s: State, failing: set<Stmt>, tableName: string, required: map<string, string>, names: set<string>)
    requires names <= required.Keys
  {
    forall n :: n in names ==>
      && CreateIndex(n, tableName, required[n]) !in failing
      && n !in s.indexes
      && tableName in s.tables
      && required[n] in s.tables[tableName].columns
  }

  function NewIndexes(tableName: string, required: map<string, string>, names: set<string>): map<string, IndexDef>
    requires names <= required.Keys
  {
    map n | n in names :: IndexDef(tableName, required[n])
  }

  /** Creating the indexes `names` in any order: all of them, or None if any one fails. */
  function CreateIndexes(s: State, failing: set<Stmt>, tableName: string, required: map<string, string>, names: set<string>): Option<State>
    requires names <= required.Keys
  {
    if names == {} then Some(s)
    else if !CanCreateIndexes(s, failing, tableName, required, names) then None
    else Some(s.(indexes := s.indexes + NewIndexes(tableName, required, names)))
  }

  predicate CanDropIndexes(s: State, failing: set<Stmt>, names: set<string>) {
    forall n :: n in names ==> DropIndex(n) !in failing && n in s.indexes
  }

  /** Dropping the indexes `names` in any order: all of them, or None if any one fails. */
  function DropIndexes(s: State, failing: set<Stmt>, names: set<string>): Option<State> {
    if names == {} then Some(s)
    else if !CanDropIndexes(s, failing, names) then None
    else Some(s.(indexes := s.indexes - names))
  }

  /**
   * What `upgradeTableIndex` does: create the required indexes the table lacks, then drop
   * the ones it has that are no longer required (both sets taken from the first query).
   */
  function IndexUpgrade(s: State, failing: set<Stmt>, tableName: string, indexColumnNameArray: Option<seq<string>>): (r: Option<State>)
    ensures r.Some? ==> forall c :: c in IndexColumns(indexColumnNameArray) ==> IndexName(c, tableName) in r.value.indexes
  {
    var existing := IndexNames(s, failing, tableName);
    var required := RequiredIndexes(tableName, IndexColumns(indexColumnNameArray));
    RequiredIndexesSurvive(s, failing, tableName, required, existing);
    match CreateIndexes(s, failing, tableName, required, required.Keys - existing)
    case None => None
    case Some(added) => DropIndexes(added, failing, existing - required.Keys)
  }

  /** Creating the missing required indexes and dropping the stale ones leaves every required one in place. */
  lemma RequiredIndexesSurvive(s: State, failing: set<Stmt>, tableName: string, required: map<string, string>, existing: set<string>)
    requires existing <= s.indexes.Keys
    ensures var added := CreateIndexes(s, failing, tableName, required, required.Keys - existing);
      added.Some? && DropIndexes(added.value, failing, existing - required.Keys).Some? ==>
        required.Keys <= DropIndexes(added.value, failing, existing - required.Keys).value.indexes.Keys
  {
    var missing := required.Keys - existing;
    var added := CreateIndexes(s, failing, tableName, required, missing);
    if added.Some? {
      assert s.indexes.Keys + missing <= added.value.indexes.Keys;
    }
  }

  lemma CreateIndexesStep(s: State, failing: set<Stmt>, tableName: string, required: map<string, string>,
                          done: set<string>, n: string, current: State)
    requires done <= required.Keys && n in required && n !in done
    requires CreateIndexes(s, failing, tableName, required, done) == Some(current)
    ensures CreateIndexes(s, failing, tableName, required, done + {n})
         == Execute(current, failing, CreateIndex(n, tableName, required[n]))
  {
    if done == {} {
      assert done + {n} == {n};
      FirstIndexStep(s, failing, tableName, required, n);
    } else {
      LaterIndexStep(s, failing, tableName, required, done, n);
    }
  }

  lemma FirstIndexStep(s: State, failing: set<Stmt>, tableName: string, required: map<string, string>, n: string)
    requires n in required
    ensures CreateIndexes(s, failing, tableName, required, {n}) == Execute(s, failing, CreateIndex(n, tableName, required[n]))
  {
    if Execute(s, failing, CreateIndex(n, tableName, required[n])).Some? {
      assert CanCreateIndexes(s, failing, tableName, required, {n});
      assert NewIndexes(tableName, required, {n}) == map[n := IndexDef(tableName, required[n])];
      assert s.indexes + map[n := IndexDef(tableName, required[n])] == s.indexes[n := IndexDef(tableName, required[n])];
    } else {
      assert !CanCreateIndexes(s, failing, tableName, required, {n});
    }
  }

  lemma LaterIndexStep(s: State, failing: set<Stmt>, tableName: string, required: map<string, string>,
                       done: set<string>, n: string)
    requires done <= required.Keys && n in required && n !in done && done != {}
    requires CanCreateIndexes(s, failing, tableName, required, done)
    ensures var current := s.(indexes := s.indexes + NewIndexes(tableName, required, done));
      CreateIndexes(s, failing, tableName, required, done + {n})
      == Execute(current, failing, CreateIndex(n, tableName, required[n]))
  {
    var next := done + {n};
    var current := s.(indexes := s.indexes + NewIndexes(tableName, required, done));
    var stmt := CreateIndex(n, tableName, required[n]);
    if Execute(current, failing, stmt).Some? {
      assert CanCreateIndexes(s, failing, tableName, required, next);
      assert NewIndexes(tableName, required, next) == NewIndexes(tableName, required, done)[n := IndexDef(tableName, required[n])];
      assert s.indexes + NewIndexes(tableName, required, next) == current.indexes[n := IndexDef(tableName, required[n])];
    } else {
      assert !CanCreateIndexes(s, failing, tableName, required, next);
    }
  }

  lemma DropIndexesStep(s: State, failing: set<Stmt>, done: set<string>, n: string, current: State)
    requires n !in done
    requires DropIndexes(s, failing, done) == Some(current)
    ensures DropIndexes(s, failing, done + {n}) == Execute(current, failing, DropIndex(n))
  {
    var next := done + {n};
    if done == {} {
      assert next == {n};
      if Execute(current, failing, DropIndex(n)).Some? {
        assert s.indexes - next == s.indexes - {n};
      }
    } else {
      if Execute(current, failing, DropIndex(n)).Some? {
        assert CanDropIndexes(s, failing, next);
        assert s.indexes - next == (s.indexes - done) - {n};
      } else {
        assert !CanDropIndexes(s, failing, next);
      }
    }
  }

  /** The `forEach` of `upgradeTableIndex`: the required name set and name-to-column dictionary. */
  method BuildIndexDictionary(tableName: string, indexColumnNameArray: Option<seq<string>>)
    returns (newIndexSet: set<string>, newIndexDic: map<string, string>)
    ensures newIndexDic == RequiredIndexes(tableName, IndexColumns(indexColumnNameArray))
    ensures newIndexSet == newIndexDic.Keys
  {
    newIndexSet, newIndexDic := {}, map[];
    if indexColumnNameArray.Some? {
      var names := indexColumnNameArray.value;
      for i := 0 to |names|
        invariant newIndexDic == RequiredIndexes(tableName, names[..i])
        invariant newIndexSet == newIndexDic.Keys
      {
        assert names[..i + 1][..i] == names[..i];
        var indexName := IndexName(names[i], tableName);
        newIndexSet := newIndexSet + {indexName};
        newIndexDic := newIndexDic[indexName := names[i]];
      }
      assert names[..|names|] == names;
    }
  }

  /** The creation loop of `upgradeTableIndex`: `CREATE INDEX` per missing name, stopping at the first failure. */
  method CreateMissingIndexes(db: Database, tableName: string, newIndexDic: map<string, string>, needAddIndexSet: set<string>)
    returns (ok: bool)
    requires needAddIndexSet <= newIndexDic.Keys
    modifies db
    ensures ok == CreateIndexes(old(db.state), db.failing, tableName, newIndexDic, needAddIndexSet).Some?
    ensures ok ==> db.state == CreateIndexes(old(db.state), db.failing, tableName, newIndexDic, needAddIndexSet).value
    ensures SameCatalog(db.state, old(db.state)) && db.state.tables == old(db.state.tables)
  {
    ghost var s0 := db.state;
    var remaining := needAddIndexSet;
    ghost var done: set<string> := {};
    while remaining != {}
      invariant remaining <= needAddIndexSet && done == needAddIndexSet - remaining
      invariant CreateIndexes(s0, db.failing, tableName, newIndexDic, done) == Some(db.state)
      invariant SameCatalog(db.state, s0) && db.state.tables == s0.tables
      decreases remaining
    {
      var indexName :| indexName in remaining;
      CreateIndexesStep(s0, db.failing, tableName, newIndexDic, done, indexName, db.state);
      ok := db.ExecuteUpdate(CreateIndex(indexName, tableName, newIndexDic[indexName]));
      if !ok {
        assert !CanCreateIndexes(s0, db.failing, tableName, newIndexDic, done + {indexName});
        assert !CanCreateIndexes(s0, db.failing, tableName, newIndexDic, needAddIndexSet);
        return;
      }
      remaining := remaining - {indexName};
      done := done + {indexName};
    }
    assert done == needAddIndexSet;
    ok := true;
  }

  /** The drop loop of `upgradeTableIndex`: `DROP INDEX` per stale name, stopping at the first failure. */
  method DropStaleIndexes(db: Database, needDeleteIndexSet: set<string>) returns (ok: bool)
    modifies db
    ensures ok == DropIndexes(old(db.state), db.failing, needDeleteIndexSet).Some?
    ensures ok ==> db.state == DropIndexes(old(db.state), db.failing, needDeleteIndexSet).value
    ensures SameCatalog(db.state, old(db.state)) && db.state.tables == old(db.state.tables)
  {
    ghost var s0 := db.state;
    var remaining := needDeleteIndexSet;
    ghost var done: set<string> := {};
    while remaining != {}
      invariant remaining <= needDeleteIndexSet && done == needDeleteIndexSet - remaining
      invariant DropIndexes(s0, db.failing, done) == Some(db.state)
      invariant SameCatalog(db.state, s0) && db.state.tables == s0.tables
      decreases remaining
    {
      var indexName :| indexName in remaining;
      DropIndexesStep(s0, db.failing, done, indexName, db.state);
      ok := db.ExecuteUpdate(DropIndex(indexName));
      if !ok {
        assert !CanDropIndexes(s0, db.failing, done + {indexName});
        assert !CanDropIndexes(s0, db.failing, needDeleteIndexSet);
        return;
      }
      remaining := remaining - {indexName};
      done := done + {indexName};
    }
    assert done == needDeleteIndexSet;
    ok := true;
  }

  /**
   * `upgradeTableIndex`: query the table's indexes, work out the required ones, create what
   * is missing, then drop what is no longer required.
   */
  method UpgradeTableIndex(db: Database, tableName: string, indexColumnNameArray: Option<seq<string>>) returns (ok: bool)
    modifies db
    ensures ok == IndexUpgrade(old(db.state), db.failing, tableName, indexColumnNameArray).Some?
    ensures ok ==> db.state == IndexUpgrade(old(db.state), db.failing, tableName, indexColumnNameArray).value
    ensures SameCatalog(db.state, old(db.state)) && db.state.tables == old(db.state.tables)
  {
    var indexSet := db.QueryIndexes(tableName);
    var newIndexSet, newIndexDic := BuildIndexDictionary(tableName, indexColumnNameArray);
    ok := CreateMissingIndexes(db, tableName, newIndexDic, newIndexSet - indexSet);
    if !ok {
      return;
    }
    ok := DropStaleIndexes(db, indexSet - newIndexSet);
  }

  /** The row `readObject` decodes: the first with `primaryKeyColumnName = primaryKeyValue`; None when the query fails, nothing matches or decoding fails. */
  function ReadRecord<T>(s: State, failing: set<Stmt>, decode: Row -> Option<T>, tableName: string,
                         primaryKeyColumnName: string, primaryKeyValue: Value): (record: Option<T>)
    ensures record.Some? ==> tableName in s.tables
    ensures record.Some? ==>
      exists row :: row in s.tables[tableName].rows && Matches(row, primaryKeyColumnName, primaryKeyValue) && decode(row) == record
  {
    match SelectFirst(s, failing, tableName, primaryKeyColumnName, primaryKeyValue)
    case Some(Some(row)) => decode(row)
    case _ => None
  }

  /** `readObject`: `SELECT * ... WHERE key = ? LIMIT 1`, then decode the row if there is one. */
  method ReadObject<T>(db: Database, decode: Row -> Option<T>, tableName: string,
                       primaryKeyColumnName: string, primaryKeyValue: Value) returns (record: Option<T>)
    ensures record == ReadRecord(db.state, db.failing, decode, tableName, primaryKeyColumnName, primaryKeyValue)
  {
    record := None;
    var resultSet := db.QueryFirst(tableName, primaryKeyColumnName, primaryKeyValue);
    if resultSet.None? {
      return;
    }
    if resultSet.value.Some? {
      record := decode(resultSet.value.value);
    }
  }

  /** No matching row means no record, whatever the decoder. */
  lemma ReadRecordAbsent<T>(s: State, failing: set<Stmt>, decode: Row -> Option<T>, tableName: string,
                            primaryKeyColumnName: string, primaryKeyValue: Value)
    requires tableName in s.tables
    requires forall r :: r in s.tables[tableName].rows ==> !Matches(r, primaryKeyColumnName, primaryKeyValue)
    ensures ReadRecord(s, failing, decode, tableName, primaryKeyColumnName, primaryKeyValue).None?
  {
  }

  /** The text `readObjectArray` sends: `SELECT * FROM t [WHERE w] [ORDER BY o DESC|ASC] [LIMIT ?];`. */
  function QuerySql(tableName: string, whereString: Option<string> := None, orderByName: Option<string> := None,
                    descending: bool := true, limit: Option<int> := None): (sql: string)
    ensures |sql| > 14 + |tableName| && sql[..14 + |tableName|] == "SELECT * FROM " + tableName && sql[|sql| - 1] == ';'
  {
    "SELECT * FROM " + tableName + WhereClause(whereString) + OrderClause(orderByName, descending) + LimitClause(limit) + ";"
  }

  function WhereClause(whereString: Option<string>): string {
    if whereString.Some? then " WHERE " + whereString.value else ""
  }

  function OrderClause(orderByName: Option<string>, descending: bool): string {
    if orderByName.Some? then " ORDER BY " + orderByName.value + (if descending then " DESC" else " ASC") else ""
  }

  function LimitClause(limit: Option<int>): string {
    if limit.Some? then " LIMIT ?" else ""
  }

  /** The bound arguments of that query: exactly the limit, when there is one. */
  function QueryArgs(limit: Option<int>): (args: seq<Value>)
    ensures |args| <= 1
    ensures args == [] <==> limit.None?
    ensures limit.Some? ==> args == [IntegerValue(limit.value)]
  {
    if limit.Some? then [IntegerValue(limit.value)] else []
  }

  /** The direction is spelled only after an ORDER BY; without clauses the query is a bare scan. */
  lemma QueryShape(tableName: string, whereString: Option<string>, descending: bool, limit: Option<int>)
    ensures QuerySql(tableName, whereString, None, descending, limit) == QuerySql(tableName, whereString, None, !descending, limit)
    ensures QuerySql(tableName, None, None, descending, None) == "SELECT * FROM " + tableName + ";"
    ensures QueryArgs(None) == []
  {
  }

  /** Called with its defaults, the query sorts in descending order when given a column, and is a bare scan otherwise. */
  lemma DefaultOrderIsDescending(tableName: string, column: string)
    ensures QuerySql(tableName, orderByName := Some(column)) == "SELECT * FROM " + tableName + " ORDER BY " + column + " DESC;"
    ensures QuerySql(tableName) == "SELECT * FROM " + tableName + ";"
  {
  }

  /** Decoding a whole result set: every row or nothing. */
  function DecodeAll<T>(rows: seq<Row>, decode: Row -> Option<T>): (objects: Option<seq<T>>)
    ensures objects.Some? <==> forall i :: 0 <= i < |rows| ==> decode(rows[i]).Some?
    ensures objects.Some? ==> |objects.value| == |rows|
    ensures objects.Some? ==> forall i :: 0 <= i < |rows| ==> decode(rows[i]) == Some(objects.value[i])
  {
    if rows == [] then Some([])
    else match (decode(rows[0]), DecodeAll(rows[1..], decode))
      case (Some(first), Some(rest)) => Some([first] + rest)
      case (None, _) => None
      case (_, None) =>
        assert forall i :: 1 <= i < |rows| ==> rows[i] == rows[1..][i - 1];
        None
  }

  /** What `readObjectArray` returns: None when the query fails or any row fails to decode, else every row decoded in order. */
  function ReadRecords<T>(s: State, failing: set<Stmt>, decode: Row -> Option<T>, tableName: string,
                          whereString: Option<string>, orderByName: Option<string>, descending: bool,
                          limit: Option<int>, resultSet: seq<Row>): (records: Option<seq<T>>)
    requires tableName in s.tables ==> QueryResult(s.tables[tableName], whereString.None? && limit.None?, resultSet)
    ensures records.Some? ==> tableName in s.tables && |records.value| == |resultSet|
    ensures records.Some? ==> forall i :: 0 <= i < |records.value| ==>
      exists row :: row in s.tables[tableName].rows && decode(row) == Some(records.value[i])
    ensures records.Some? && whereString.None? && limit.None? ==>
      && |records.value| == |s.tables[tableName].rows|
      && forall row :: row in s.tables[tableName].rows ==>
           exists i :: 0 <= i < |records.value| && decode(row) == Some(records.value[i])
  {
    match SelectRows(s, failing, tableName, QuerySql(tableName, whereString, orderByName, descending, limit), QueryArgs(limit), resultSet)
    case None => None
    case Some(rows) =>
      ResultRowsAreStored(s.tables[tableName], whereString.None? && limit.None?, rows);
      DecodeAll(rows, decode)
  }

  /**
   * `readObjectArray`: build the query by appending its clauses, run it, decode row by row and
   * give up on the first row that does not decode. `resultSet` stands for the rows the engine's
   * evaluation of the WHERE, ORDER BY and LIMIT text yields.
   */
  method ReadObjectArray<T>(db: Database, decode: Row -> Option<T>, tableName: string,
                            whereString: Option<string> := None, orderByName: Option<string> := None, descending: bool := true,
                            limit: Option<int> := None, resultSet: seq<Row>) returns (records: Option<seq<T>>)
    requires tableName in db.state.tables ==> QueryResult(db.state.tables[tableName], whereString.None? && limit.None?, resultSet)
    ensures records == ReadRecords(db.state, db.failing, decode, tableName, whereString, orderByName, descending, limit, resultSet)
  {
    var querySQL, argumentArray := BuildQuery(tableName, whereString, orderByName, descending, limit);
    var rows := db.Query(tableName, querySQL, argumentArray, resultSet);
    if rows.None? {
      return None;
    }
    records := DecodeRows(rows.value, decode);
  }

  /** The clause-by-clause assembly of the query text and its arguments. */
  method BuildQuery(tableName: string, whereString: Option<string>, orderByName: Option<string>,
                    descending: bool, limit: Option<int>) returns (querySQL: string, argumentArray: seq<Value>)
    ensures querySQL == QuerySql(tableName, whereString, orderByName, descending, limit)
    ensures argumentArray == QueryArgs(limit)
  {
    querySQL := "SELECT * FROM " + tableName;
    argumentArray := [];
    if whereString.Some? {
      querySQL := querySQL + " WHERE " + whereString.value;
    }
    ghost var afterWhere := querySQL;
    assert afterWhere == "SELECT * FROM " + tableName + WhereClause(whereString);
    if orderByName.Some? {
      var order := " ORDER BY " + orderByName.value;
      if descending {
        order := order + " DESC";
      } else {
        order := order + " ASC";
      }
      querySQL := querySQL + order;
    }
    assert querySQL == afterWhere + OrderClause(orderByName, descending);
    ghost var afterOrder := querySQL;
    if limit.Some? {
      querySQL := querySQL + " LIMIT ?";
      argumentArray := argumentArray + [IntegerValue(limit.value)];
    }
    assert querySQL == afterOrder + LimitClause(limit);
    querySQL := querySQL + ";";
  }

  /** The decode loop: row by row, giving up on the first row that does not decode. */
  method DecodeRows<T>(rows: seq<Row>, decode: Row -> Option<T>) returns (records: Option<seq<T>>)
    ensures records == DecodeAll(rows, decode)
  {
    var tempArray: seq<T> := [];
    for i := 0 to |rows|
      invariant |tempArray| == i
      invariant forall j :: 0 <= j < i ==> decode(rows[j]) == Some(tempArray[j])
    {
      var record := decode(rows[i]);
      if record.None? {
        return None;
      }
      tempArray := tempArray + [record.value];
    }
    records := Some(tempArray);
    assert DecodeAll(rows, decode).value == tempArray;
  }

  /** An empty result set reads as an empty array, not as nil. */
  lemma EmptyResultIsEmptyArray<T>(s: State, failing: set<Stmt>, decode: Row -> Option<T>, tableName: string,
                                   whereString: Option<string>, orderByName: Option<string>, descending: bool, limit: Option<int>)
    requires tableName in s.tables ==> QueryResult(s.tables[tableName], whereString.None? && limit.None?, [])
    requires SelectRows(s, failing, tableName, QuerySql(tableName, whereString, orderByName, descending, limit), QueryArgs(limit), []).Some?
    ensures ReadRecords(s, failing, decode, tableName, whereString, orderByName, descending, limit, []) == Some([])
  {
  }

  /** One undecodable row voids the whole read: no partial array is ever returned. */
  lemma {:induction false} OneBadRowVoidsTheRead<T>(rows: seq<Row>, decode: Row -> Option<T>, k: int)
    requires 0 <= k < |rows| && decode(rows[k]).None?
    ensures DecodeAll(rows, decode) == None
  {
  }

  /** What `replaceRecord` does: nothing when the encoder yields no statement, else `REPLACE INTO`. */
  function Replaced(s: State, failing: set<Stmt>, tableName: string, encoded: Option<Row>): (r: Option<State>)
    ensures encoded.None? ==> r.None?
    ensures r.Some? ==>
      && r.value.catalogTable == s.catalogTable && r.value.catalog == s.catalog
      && r.value.indexes == s.indexes && r.value.tables.Keys == s.tables.Keys
    ensures r.Some? ==> forall n :: n in s.tables && n != tableName ==> r.value.tables[n] == s.tables[n]
    ensures r.Some? ==>
      && tableName in s.tables && encoded.Some?
      && StoredRow(s.tables[tableName], encoded.value).Some?
      && r.value.tables[tableName].columns == s.tables[tableName].columns
      && r.value.tables[tableName].key == s.tables[tableName].key
    ensures r.Some? ==>
      var t := s.tables[tableName];
      var stored := StoredRow(t, encoded.value).value;
      && stored in r.value.tables[tableName].rows
      && forall row :: row in t.rows && !Matches(row, t.key, stored[t.key]) ==> row in r.value.tables[tableName].rows
  {
    match encoded
    case None => None
    case Some(row) => Execute(s, failing, Replace(tableName, row))
  }

  /** `replaceRecord`: encode, give up without touching the database if that fails, else run the REPLACE. */
  method ReplaceRecord<T>(db: Database, tableName: string, encode: T -> Option<Row>, record: T) returns (ok: bool)
    modifies db
    ensures ok == Replaced(old(db.state), db.failing, tableName, encode(record)).Some?
    ensures db.state == if ok then Replaced(old(db.state), db.failing, tableName, encode(record)).value else old(db.state)
  {
    ok := false;
    var encoded := encode(record);
    if encoded.None? {
      return;
    }
    ok := db.ExecuteUpdate(Replace(tableName, encoded.value));
  }

  /** `deleteRecord`: `DELETE FROM t WHERE column = ?`. */
  method DeleteRecord(db: Database, tableName: string, primaryKeyColumnName: string, primaryKeyValue: Value) returns (ok: bool)
    modifies db
    ensures ok == Execute(old(db.state), db.failing, Delete(tableName, primaryKeyColumnName, primaryKeyValue)).Some?
    ensures db.state == if ok then Execute(old(db.state), db.failing, Delete(tableName, primaryKeyColumnName, primaryKeyValue)).value
                        else old(db.state)
  {
    ok := db.ExecuteUpdate(Delete(tableName, primaryKeyColumnName, primaryKeyValue));
  }
}
