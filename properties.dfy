/**
 * Properties of the ORM service that relate several operations: what reconciliation
 * guarantees, how the catalog stays consistent with the tables, what a read sees after a
 * write or a removal, and what `clearAll` leaves behind.
 */
module ServiceProperties {
  import opened Wrappers
  import opened Engine
  import opened InnerAide
  import opened OrmService

  /** Every catalog row names a table that exists, under its own name. */
  ghost predicate Consistent(s: State) {
    forall n :: n in s.catalog ==> n in s.tables && s.catalog[n].tableName == n
  }

  // ---------------------------------------------------------------------------------------
  // Steps that leave the catalog and the tables alone
  // ---------------------------------------------------------------------------------------

  /** Creating indexes in order touches nothing but the index namespace, and only adds to it. */
  lemma {:induction false} CreateIndexesInOrderKeeps(s: State, failing: set<Stmt>, tableName: string, indexColumnNames: seq<string>)
    requires CreateIndexesInOrder(s, failing, tableName, indexColumnNames).Some?
    ensures var s' := CreateIndexesInOrder(s, failing, tableName, indexColumnNames).value;
      && s'.catalogTable == s.catalogTable && s'.catalog == s.catalog && s'.tables == s.tables
      && (forall n :: n in s.indexes ==> n in s'.indexes && s'.indexes[n] == s.indexes[n])
      && (forall c :: c in indexColumnNames ==>
            (IndexName(c, tableName) in s'.indexes && s'.indexes[IndexName(c, tableName)] == IndexDef(tableName, c)))
    decreases |indexColumnNames|
  {
    if indexColumnNames != [] {
      var c := indexColumnNames[0];
      var next := Execute(s, failing, CreateIndex(IndexName(c, tableName), tableName, c)).value;
      CreateIndexesInOrderKeeps(next, failing, tableName, indexColumnNames[1..]);
      forall c' | c' in indexColumnNames
        ensures c' == c || c' in indexColumnNames[1..]
      {
        var k :| 0 <= k < |indexColumnNames| && indexColumnNames[k] == c';
        if k > 0 {
          assert indexColumnNames[1..][k - 1] == c';
        }
      }
    }
  }

  /** The two index steps of an upgrade leave the catalog and the tables alone. */
  lemma IndexUpgradeKeeps(s: State, failing: set<Stmt>, tableName: string, indexColumnNameArray: Option<seq<string>>)
    requires IndexUpgrade(s, failing, tableName, indexColumnNameArray).Some?
    ensures var s' := IndexUpgrade(s, failing, tableName, indexColumnNameArray).value;
      s'.catalogTable == s.catalogTable && s'.catalog == s.catalog && s'.tables == s.tables
  {
  }

  /** Adding columns changes one table's columns and nothing else: rows, key and old columns stay. */
  lemma ColumnUpgradeKeeps(s: State, failing: set<Stmt>, tableName: string, fields: map<string, SqlType>)
    requires ColumnUpgrade(s, failing, tableName, fields).Some?
    ensures var s' := ColumnUpgrade(s, failing, tableName, fields).value;
      && s'.catalogTable == s.catalogTable && s'.catalog == s.catalog && s'.indexes == s.indexes
      && s'.tables.Keys == s.tables.Keys
      && (forall n :: n in s.tables && n != tableName ==> s'.tables[n] == s.tables[n])
      && (tableName in s.tables ==>
            && s'.tables[tableName].rows == s.tables[tableName].rows
            && s'.tables[tableName].key == s.tables[tableName].key
            && (forall c :: c in s.tables[tableName].columns ==>
                  c in s'.tables[tableName].columns && s'.tables[tableName].columns[c] == s.tables[tableName].columns[c]))
  {
  }

  // ---------------------------------------------------------------------------------------
  // Reconciliation
  // ---------------------------------------------------------------------------------------

  /** A table the catalog tracks for this type at the type's version or newer is left exactly as it is. */
  lemma CurrentVersionIsNoOp(s: State, failing: set<Stmt>, ty: ObjectType, tableName: string)
    requires Tracked(s, failing, ty.name, tableName)
    requires s.catalog[tableName].objectTypeVersion >= ty.version
    ensures FixTable(s, failing, ty, tableName) == Some(s)
  {
  }

  /**
   * After reconciliation succeeds the catalog tracks the table for this type, at the version it
   * already had when that was current, else at the type's version.
   */
  lemma FixTableTracks(s: State, failing: set<Stmt>, ty: ObjectType, tableName: string)
    requires FixTable(s, failing, ty, tableName).Some?
    requires SelectCatalog(tableName) !in failing
    ensures var s' := FixTable(s, failing, ty, tableName).value;
      && Tracked(s', failing, ty.name, tableName)
      && s'.catalog[tableName].objectTypeVersion ==
           if Tracked(s, failing, ty.name, tableName) && s.catalog[tableName].objectTypeVersion >= ty.version
           then s.catalog[tableName].objectTypeVersion
           else ty.version
  {
    if !Tracked(s, failing, ty.name, tableName) {
      var created := Execute(s, failing, CreateTable(tableName, ColumnDefs(ty.fields, ty.primaryKeyColumnName, false), ty.primaryKeyColumnName)).value;
      CreateIndexesInOrderKeeps(created, failing, tableName, IndexColumns(ty.indexColumnNameArray));
    } else if s.catalog[tableName].objectTypeVersion < ty.version {
      var widened := ColumnUpgrade(s, failing, tableName, ty.fields).value;
      IndexUpgradeKeeps(widened, failing, tableName, ty.indexColumnNameArray);
    }
  }

  /** Reconciling twice is reconciling once: the second run finds the table current and changes nothing. */
  lemma FixTableIdempotent(s: State, failing: set<Stmt>, ty: ObjectType, tableName: string)
    requires FixTable(s, failing, ty, tableName).Some?
    requires SelectCatalog(tableName) !in failing
    ensures var s' := FixTable(s, failing, ty, tableName).value;
      FixTable(s', failing, ty, tableName) == Some(s')
  {
    FixTableTracks(s, failing, ty, tableName);
    var s' := FixTable(s, failing, ty, tableName).value;
    CurrentVersionIsNoOp(s', failing, ty, tableName);
  }

  /** For the type that owns the table the recorded version only grows: it becomes the larger of the two. */
  lemma VersionNeverDecreasesForOwner(s: State, failing: set<Stmt>, ty: ObjectType, tableName: string)
    requires Tracked(s, failing, ty.name, tableName)
    requires FixTable(s, failing, ty, tableName).Some?
    ensures var s' := FixTable(s, failing, ty, tableName).value;
      && s'.catalog[tableName].objectTypeVersion >= s.catalog[tableName].objectTypeVersion
      && s'.catalog[tableName].objectTypeVersion >= ty.version
  {
    FixTableTracks(s, failing, ty, tableName);
  }

  /**
   * For another type sharing the table name the version is overwritten, and can go down: a table
   * tracked for type "A" at version 5 is re-recorded for type "B" at version 1.
   */
  lemma TypeMismatchCanLowerVersion()
    ensures var t := "table_shared";
      var key := map["id" := ColumnDef(INTEGER, true, true, false)];
      var s := State(true, map[t := TableInfo(t, "A", 5)], map[t := Table(key, "id", [], 0)], map[]);
      var ty := ObjectType("B", map["id" := INTEGER], "id", None, 1);
      && FixTable(s, {}, ty, t).Some?
      && FixTable(s, {}, ty, t).value.catalog[t] == TableInfo(t, "B", 1)
  {
  }

  /**
   * Whenever reconciliation writes the catalog row, the table has every field of the type as a
   * column, except on the path where an existing table is re-recorded for another type: there
   * CREATE TABLE IF NOT EXISTS leaves the columns as they were.
   */
  lemma FixTableCoversFields(s: State, failing: set<Stmt>, ty: ObjectType, tableName: string)
    requires FixTable(s, failing, ty, tableName).Some? && ty.fields != map[]
    requires !(Tracked(s, failing, ty.name, tableName) && s.catalog[tableName].objectTypeVersion >= ty.version)
    requires Tracked(s, failing, ty.name, tableName) || tableName !in s.tables
    ensures var s' := FixTable(s, failing, ty, tableName).value;
      tableName in s'.tables && ty.fields.Keys <= s'.tables[tableName].columns.Keys
  {
    if !Tracked(s, failing, ty.name, tableName) {
      CreationColumnsAreFields(s, failing, ty, tableName);
    } else {
      var widened := ColumnUpgrade(s, failing, tableName, ty.fields).value;
      IndexUpgradeKeeps(widened, failing, tableName, ty.indexColumnNameArray);
    }
  }

  /**
   * The exception in action: table "table_shared" holds only "id" and is tracked for type "A".
   * An empty array write of type "B" (fields "id" and "age") returns false yet commits the
   * catalog row for "B", so "B" is now current while "age" is not a column: reconciliation
   * leaves the table alone from then on, and every write of a "B" row carrying "age" fails.
   */
  lemma MismatchLeavesCatalogAheadOfSchema<T>(codec: Codec<T>, record: T)
    requires codec.encode(record).Some? && "age" in codec.encode(record).value
    ensures var t := "table_shared";
      var s := State(true, map[t := TableInfo(t, "A", 5)],
                     map[t := Table(map["id" := ColumnDef(INTEGER, true, true, false)], "id", [], 0)], map[]);
      var ty := ObjectType("B", map["id" := INTEGER, "age" := INTEGER], "id", None, 1);
      var o := WriteArrayOutcome(s, {}, ty, codec, t, []);
      && !o.result
      && o.state.catalog[t] == TableInfo(t, "B", 1)
      && t in o.state.tables && "age" !in o.state.tables[t].columns
      && FixTable(o.state, {}, ty, t) == Some(o.state)
      && !WriteOutcome(o.state, {}, ty, codec, t, record).result
  {
    var t := "table_shared";
    var s := State(true, map[t := TableInfo(t, "A", 5)],
                   map[t := Table(map["id" := ColumnDef(INTEGER, true, true, false)], "id", [], 0)], map[]);
    var ty := ObjectType("B", map["id" := INTEGER, "age" := INTEGER], "id", None, 1);
    var ready := s.(catalog := s.catalog[t := TableInfo(t, "B", 1)]);
    assert FixTable(s, {}, ty, t) == Some(ready);
    assert FixTable(ready, {}, ty, t) == Some(ready);
    assert Replaced(ready, {}, t, codec.encode(record)).None?;
  }

  /** The corrected reconciliation covers the type's fields whenever it writes the catalog row, on every path. */
  lemma AligningFixTableCoversFields(s: State, failing: set<Stmt>, ty: ObjectType, tableName: string)
    requires AligningFixTable(s, failing, ty, tableName).Some? && ty.fields != map[]
    requires !(Tracked(s, failing, ty.name, tableName) && s.catalog[tableName].objectTypeVersion >= ty.version)
    ensures var s' := AligningFixTable(s, failing, ty, tableName).value;
      tableName in s'.tables && ty.fields.Keys <= s'.tables[tableName].columns.Keys
  {
    if !Tracked(s, failing, ty.name, tableName) && tableName !in s.tables {
      CreationColumnsAreFields(s, failing, ty, tableName);
    } else {
      var widened := ColumnUpgrade(s, failing, tableName, ty.fields).value;
      IndexUpgradeKeeps(widened, failing, tableName, ty.indexColumnNameArray);
    }
  }

  /** On the witness above the corrected reconciliation adds the missing column. */
  lemma AligningFixTableAddsMissingColumn()
    ensures var t := "table_shared";
      var s := State(true, map[t := TableInfo(t, "A", 5)],
                     map[t := Table(map["id" := ColumnDef(INTEGER, true, true, false)], "id", [], 0)], map[]);
      var ty := ObjectType("B", map["id" := INTEGER, "age" := INTEGER], "id", None, 1);
      && AligningFixTable(s, {}, ty, t).Some?
      && "age" in AligningFixTable(s, {}, ty, t).value.tables[t].columns
  {
    var t := "table_shared";
    var s := State(true, map[t := TableInfo(t, "A", 5)],
                   map[t := Table(map["id" := ColumnDef(INTEGER, true, true, false)], "id", [], 0)], map[]);
    var ty := ObjectType("B", map["id" := INTEGER, "age" := INTEGER], "id", None, 1);
    assert ColumnNames(s, {}, t) == {"id"};
    assert ty.fields.Keys - {"id"} == {"age"};
    assert CanAddColumns(s, {}, t, ty.fields, {"age"});
    var widened := WithTable(s, t, s.tables[t].(columns := s.tables[t].columns + NewColumns(ty.fields, {"age"})));
    assert ColumnUpgrade(s, {}, t, ty.fields) == Some(widened);
    assert IndexUpgrade(widened, {}, t, None) == Some(widened);
    AligningFixTableCoversFields(s, {}, ty, t);
  }

  /**
   * An upgrade adds exactly the fields the table lacks: the columns become the old ones plus the
   * type's fields, old column definitions, the key and every row stay as they were.
   */
  lemma UpgradeAddsExactlyMissingColumns(s: State, failing: set<Stmt>, ty: ObjectType, tableName: string)
    requires Tracked(s, failing, ty.name, tableName) && s.catalog[tableName].objectTypeVersion < ty.version
    requires TableInfoPragma(tableName) !in failing && tableName in s.tables
    requires FixTable(s, failing, ty, tableName).Some?
    ensures var s' := FixTable(s, failing, ty, tableName).value;
      && tableName in s'.tables
      && s'.tables[tableName].columns.Keys == s.tables[tableName].columns.Keys + ty.fields.Keys
      && s'.tables[tableName].rows == s.tables[tableName].rows
      && s'.tables[tableName].key == s.tables[tableName].key
      && (forall c :: c in s.tables[tableName].columns ==> s'.tables[tableName].columns[c] == s.tables[tableName].columns[c])
  {
    var widened := ColumnUpgrade(s, failing, tableName, ty.fields).value;
    ColumnUpgradeKeeps(s, failing, tableName, ty.fields);
    ColumnUpgradeExact(s, failing, tableName, ty.fields);
    IndexUpgradeKeeps(widened, failing, tableName, ty.indexColumnNameArray);
    var s' := FixTable(s, failing, ty, tableName).value;
    assert s'.tables == widened.tables;
  }

  /** The column step on its own: the columns become the old ones plus the fields. */
  lemma ColumnUpgradeExact(s: State, failing: set<Stmt>, tableName: string, fields: map<string, SqlType>)
    requires TableInfoPragma(tableName) !in failing && tableName in s.tables
    requires ColumnUpgrade(s, failing, tableName, fields).Some?
    ensures var s' := ColumnUpgrade(s, failing, tableName, fields).value;
      tableName in s'.tables && s'.tables[tableName].columns.Keys == s.tables[tableName].columns.Keys + fields.Keys
  {
    var names := fields.Keys - ColumnNames(s, failing, tableName);
    var t := s.tables[tableName];
    assert names == fields.Keys - t.columns.Keys;
    if names != {} {
      assert NewColumns(fields, names).Keys == names;
    } else {
      forall c | c in fields.Keys ensures c in t.columns.Keys {
        assert c !in names;
      }
    }
  }

  /** After the index step the table's indexes are exactly the required ones: missing ones added, stale ones dropped. */
  lemma IndexUpgradeExact(s: State, failing: set<Stmt>, tableName: string, indexColumnNameArray: Option<seq<string>>)
    requires IndexQuery(tableName) !in failing
    requires IndexUpgrade(s, failing, tableName, indexColumnNameArray).Some?
    ensures IndexNames(IndexUpgrade(s, failing, tableName, indexColumnNameArray).value, failing, tableName)
         == RequiredIndexes(tableName, IndexColumns(indexColumnNameArray)).Keys
  {
    CreateThenDropExact(s, failing, tableName, RequiredIndexes(tableName, IndexColumns(indexColumnNameArray)));
  }

  lemma CreateThenDropExact(s: State, failing: set<Stmt>, tableName: string, required: map<string, string>)
    requires IndexQuery(tableName) !in failing
    requires CreateIndexes(s, failing, tableName, required, required.Keys - IndexNames(s, failing, tableName)).Some?
    requires DropIndexes(CreateIndexes(s, failing, tableName, required, required.Keys - IndexNames(s, failing, tableName)).value,
                         failing, IndexNames(s, failing, tableName) - required.Keys).Some?
    ensures IndexNames(DropIndexes(CreateIndexes(s, failing, tableName, required, required.Keys - IndexNames(s, failing, tableName)).value,
                                   failing, IndexNames(s, failing, tableName) - required.Keys).value, failing, tableName)
         == required.Keys
  {
    var existing := IndexNames(s, failing, tableName);
    var missing := required.Keys - existing;
    var stale := existing - required.Keys;
    var added := CreateIndexes(s, failing, tableName, required, missing).value;
    var s' := DropIndexes(added, failing, stale).value;
    assert added.indexes == s.indexes + NewIndexes(tableName, required, missing);
    assert s'.indexes == added.indexes - stale;
    forall n ensures n in IndexNames(s', failing, tableName) <==> n in required.Keys {
      if n in missing {
        assert n in NewIndexes(tableName, required, missing);
      }
    }
  }

  /** The same, seen through reconciliation: after an upgrade the table carries exactly the type's indexes. */
  lemma UpgradeLeavesExactlyRequiredIndexes(s: State, failing: set<Stmt>, ty: ObjectType, tableName: string)
    requires Tracked(s, failing, ty.name, tableName) && s.catalog[tableName].objectTypeVersion < ty.version
    requires IndexQuery(tableName) !in failing
    requires FixTable(s, failing, ty, tableName).Some?
    ensures IndexNames(FixTable(s, failing, ty, tableName).value, failing, tableName)
         == RequiredIndexes(tableName, IndexColumns(ty.indexColumnNameArray)).Keys
  {
    var widened := ColumnUpgrade(s, failing, tableName, ty.fields).value;
    IndexUpgradeExact(widened, failing, tableName, ty.indexColumnNameArray);
  }

  /** With no index list the required set is empty, so the index step drops every index of the table. */
  lemma NilIndexArrayDropsEveryIndex(s: State, failing: set<Stmt>, tableName: string)
    requires IndexQuery(tableName) !in failing
    requires IndexUpgrade(s, failing, tableName, None).Some?
    ensures IndexNames(IndexUpgrade(s, failing, tableName, None).value, failing, tableName) == {}
  {
    IndexUpgradeExact(s, failing, tableName, None);
  }

  /** A table created by reconciliation has exactly the type's fields as columns, is keyed on its key and is empty. */
  lemma CreationColumnsAreFields(s: State, failing: set<Stmt>, ty: ObjectType, tableName: string)
    requires tableName !in s.tables
    requires Creation(s, failing, ty, tableName).Some?
    ensures var s' := Creation(s, failing, ty, tableName).value;
      && tableName in s'.tables
      && s'.tables[tableName].columns.Keys == ty.fields.Keys
      && s'.tables[tableName].key == ty.primaryKeyColumnName
      && s'.tables[tableName].rows == []
  {
    var created := Execute(s, failing, CreateTable(tableName, ColumnDefs(ty.fields, ty.primaryKeyColumnName, false), ty.primaryKeyColumnName)).value;
    CreateIndexesInOrderKeeps(created, failing, tableName, IndexColumns(ty.indexColumnNameArray));
    ColumnDefsMarkOnlyTheKey(ty.fields, ty.primaryKeyColumnName, false);
  }

  /** Creating a new table creates an index for every listed column. */
  lemma CreationIndexesEveryColumn(s: State, failing: set<Stmt>, ty: ObjectType, tableName: string)
    requires Creation(s, failing, ty, tableName).Some?
    ensures var s' := Creation(s, failing, ty, tableName).value;
      forall c :: c in IndexColumns(ty.indexColumnNameArray) ==>
        IndexName(c, tableName) in s'.indexes && s'.indexes[IndexName(c, tableName)] == IndexDef(tableName, c)
  {
    var created := Execute(s, failing, CreateTable(tableName, ColumnDefs(ty.fields, ty.primaryKeyColumnName, false), ty.primaryKeyColumnName)).value;
    CreateIndexesInOrderKeeps(created, failing, tableName, IndexColumns(ty.indexColumnNameArray));
  }

  /** An index name that is already taken makes the ordered creation fail when its column comes up. */
  lemma {:induction false} TakenIndexNameFails(s: State, failing: set<Stmt>, tableName: string, indexColumnNames: seq<string>, j: int)
    requires 0 <= j < |indexColumnNames|
    requires IndexName(indexColumnNames[j], tableName) in s.indexes
    ensures CreateIndexesInOrder(s, failing, tableName, indexColumnNames) == None
    decreases j
  {
    var c := indexColumnNames[0];
    var step := Execute(s, failing, CreateIndex(IndexName(c, tableName), tableName, c));
    if j > 0 && step.Some? {
      assert indexColumnNames[1..][j - 1] == indexColumnNames[j];
      TakenIndexNameFails(step.value, failing, tableName, indexColumnNames[1..], j - 1);
    }
  }

  /** A column listed twice among the index columns makes the second `CREATE INDEX` fail. */
  lemma {:induction false} DuplicateIndexColumnFails(s: State, failing: set<Stmt>, tableName: string, indexColumnNames: seq<string>, i: int, j: int)
    requires 0 <= i < j < |indexColumnNames| && indexColumnNames[i] == indexColumnNames[j]
    ensures CreateIndexesInOrder(s, failing, tableName, indexColumnNames) == None
    decreases i
  {
    var c := indexColumnNames[0];
    var step := Execute(s, failing, CreateIndex(IndexName(c, tableName), tableName, c));
    if step.Some? {
      assert indexColumnNames[1..][j - 1] == indexColumnNames[j];
      if i == 0 {
        TakenIndexNameFails(step.value, failing, tableName, indexColumnNames[1..], j - 1);
      } else {
        assert indexColumnNames[1..][i - 1] == indexColumnNames[i];
        DuplicateIndexColumnFails(step.value, failing, tableName, indexColumnNames[1..], i - 1, j - 1);
      }
    }
  }

  /**
   * So a type whose index list repeats a column can never be written to a table the catalog
   * does not yet track for it: the write fails and changes nothing.
   */
  lemma DuplicateIndexColumnsBlockWrites<T>(s: State, failing: set<Stmt>, ty: ObjectType, codec: Codec<T>, tableName: string,
                                            record: T, i: int, j: int)
    requires !Tracked(s, failing, ty.name, tableName)
    requires ty.indexColumnNameArray.Some?
    requires 0 <= i < j < |ty.indexColumnNameArray.value|
    requires ty.indexColumnNameArray.value[i] == ty.indexColumnNameArray.value[j]
    ensures FixTable(s, failing, ty, tableName) == None
    ensures WriteOutcome(s, failing, ty, codec, tableName, record) == Outcome(false, s)
  {
    var created := Execute(s, failing, CreateTable(tableName, ColumnDefs(ty.fields, ty.primaryKeyColumnName, false), ty.primaryKeyColumnName));
    if created.Some? {
      DuplicateIndexColumnFails(created.value, failing, tableName, ty.indexColumnNameArray.value, i, j);
    }
  }

  // ---------------------------------------------------------------------------------------
  // Catalog consistency
  // ---------------------------------------------------------------------------------------

  /** Reconciliation keeps every table, and records only tables that exist. */
  lemma FixTableKeepsConsistent(s: State, failing: set<Stmt>, ty: ObjectType, tableName: string)
    requires Consistent(s)
    requires FixTable(s, failing, ty, tableName).Some?
    ensures var s' := FixTable(s, failing, ty, tableName).value;
      Consistent(s') && s.tables.Keys <= s'.tables.Keys
  {
    if !Tracked(s, failing, ty.name, tableName) {
      var created := Execute(s, failing, CreateTable(tableName, ColumnDefs(ty.fields, ty.primaryKeyColumnName, false), ty.primaryKeyColumnName)).value;
      CreateIndexesInOrderKeeps(created, failing, tableName, IndexColumns(ty.indexColumnNameArray));
    } else if s.catalog[tableName].objectTypeVersion < ty.version {
      var widened := ColumnUpgrade(s, failing, tableName, ty.fields).value;
      ColumnUpgradeKeeps(s, failing, tableName, ty.fields);
      IndexUpgradeKeeps(widened, failing, tableName, ty.indexColumnNameArray);
    }
  }

  lemma WriteKeepsConsistent<T>(s: State, failing: set<Stmt>, ty: ObjectType, codec: Codec<T>, tableName: string, record: T)
    requires Consistent(s)
    ensures Consistent(WriteOutcome(s, failing, ty, codec, tableName, record).state)
  {
    if FixTable(s, failing, ty, tableName).Some? {
      FixTableKeepsConsistent(s, failing, ty, tableName);
    }
  }

  lemma WriteArrayKeepsConsistent<T>(s: State, failing: set<Stmt>, ty: ObjectType, codec: Codec<T>, tableName: string, records: seq<T>)
    requires Consistent(s)
    ensures Consistent(WriteArrayOutcome(s, failing, ty, codec, tableName, records).state)
  {
    var ready := FixTable(s, failing, ty, tableName);
    if ready.Some? {
      FixTableKeepsConsistent(s, failing, ty, tableName);
    }
  }

  lemma UpdateKeepsConsistent<T>(s: State, failing: set<Stmt>, ty: ObjectType, codec: Codec<T>, tableName: string,
                                 primaryKeyValue: Value, updateClosure: Option<T> -> Option<T>)
    requires Consistent(s)
    ensures Consistent(UpdateOutcome(s, failing, ty, codec, tableName, primaryKeyValue, updateClosure).state)
  {
    var newRecord := updateClosure(ReadOutcome(s, failing, ty, codec, tableName, primaryKeyValue));
    if newRecord.Some? {
      WriteKeepsConsistent(s, failing, ty, codec, tableName, newRecord.value);
    }
  }

  lemma RemoveKeepsConsistent(s: State, failing: set<Stmt>, ty: ObjectType, tableName: string, primaryKeyValue: Value)
    requires Consistent(s)
    ensures Consistent(RemoveOutcome(s, failing, ty, tableName, primaryKeyValue).state)
  {
  }

  /** Dropping a tracked table also forgets it, so no catalog row is left pointing at nothing. */
  lemma RemoveTableKeepsConsistent(s: State, failing: set<Stmt>, ty: ObjectType, tableName: string)
    requires Consistent(s)
    ensures Consistent(RemoveTableOutcome(s, failing, ty, tableName).state)
  {
  }

  // ---------------------------------------------------------------------------------------
  // Engine integrity: unique keys, rows within their columns, indexes on existing columns
  // ---------------------------------------------------------------------------------------

  lemma {:induction false} CreateIndexesInOrderPreservesWellFormed(s: State, failing: set<Stmt>, tableName: string,
                                                                   indexColumnNames: seq<string>)
    requires WellFormed(s)
    requires CreateIndexesInOrder(s, failing, tableName, indexColumnNames).Some?
    ensures WellFormed(CreateIndexesInOrder(s, failing, tableName, indexColumnNames).value)
    decreases |indexColumnNames|
  {
    if indexColumnNames != [] {
      var c := indexColumnNames[0];
      var stmt := CreateIndex(IndexName(c, tableName), tableName, c);
      ApplyPreservesWellFormed(s, stmt);
      CreateIndexesInOrderPreservesWellFormed(Execute(s, failing, stmt).value, failing, tableName, indexColumnNames[1..]);
    }
  }

  lemma CreationPreservesWellFormed(s: State, failing: set<Stmt>, ty: ObjectType, tableName: string)
    requires WellFormed(s)
    requires Creation(s, failing, ty, tableName).Some?
    ensures WellFormed(Creation(s, failing, ty, tableName).value)
  {
    var create := CreateTable(tableName, ColumnDefs(ty.fields, ty.primaryKeyColumnName, false), ty.primaryKeyColumnName);
    ApplyPreservesWellFormed(s, create);
    var created := Execute(s, failing, create).value;
    CreateIndexesInOrderPreservesWellFormed(created, failing, tableName, IndexColumns(ty.indexColumnNameArray));
    var indexed := CreateIndexesInOrder(created, failing, tableName, IndexColumns(ty.indexColumnNameArray)).value;
    ApplyPreservesWellFormed(indexed, ReplaceCatalog(TableInfo(tableName, ty.name, ty.version)));
  }

  /** Adding columns keeps every row within its table: the columns only grow. */
  lemma ColumnUpgradePreservesWellFormed(s: State, failing: set<Stmt>, tableName: string, fields: map<string, SqlType>)
    requires WellFormed(s)
    requires ColumnUpgrade(s, failing, tableName, fields).Some?
    ensures WellFormed(ColumnUpgrade(s, failing, tableName, fields).value)
  {
    var missing := fields.Keys - ColumnNames(s, failing, tableName);
    if missing != {} {
      var t := s.tables[tableName];
      var t' := t.(columns := t.columns + NewColumns(fields, missing));
      assert TableWellFormed(t');
      WithTablePreservesWellFormed(s, tableName, t');
    }
  }

  /** New indexes name existing columns of the table. */
  lemma CreateIndexesPreservesWellFormed(s: State, failing: set<Stmt>, tableName: string, required: map<string, string>, names: set<string>)
    requires WellFormed(s) && names <= required.Keys
    requires CreateIndexes(s, failing, tableName, required, names).Some?
    ensures WellFormed(CreateIndexes(s, failing, tableName, required, names).value)
  {
    if names != {} {
      var added := CreateIndexes(s, failing, tableName, required, names).value;
      assert added.tables == s.tables;
      forall n | n in added.indexes
        ensures added.indexes[n].table in added.tables
        ensures added.indexes[n].column in added.tables[added.indexes[n].table].columns
      {
        if n in names {
          assert added.indexes[n] == IndexDef(tableName, required[n]);
        } else {
          assert added.indexes[n] == s.indexes[n];
        }
      }
    }
  }

  /** Dropping indexes cannot break anything. */
  lemma DropIndexesPreservesWellFormed(s: State, failing: set<Stmt>, names: set<string>)
    requires WellFormed(s)
    requires DropIndexes(s, failing, names).Some?
    ensures WellFormed(DropIndexes(s, failing, names).value)
  {
  }

  /** The index step keeps the engine's integrity. */
  lemma IndexUpgradePreservesWellFormed(s: State, failing: set<Stmt>, tableName: string, indexColumnNameArray: Option<seq<string>>)
    requires WellFormed(s)
    requires IndexUpgrade(s, failing, tableName, indexColumnNameArray).Some?
    ensures WellFormed(IndexUpgrade(s, failing, tableName, indexColumnNameArray).value)
  {
    var existing := IndexNames(s, failing, tableName);
    var required := RequiredIndexes(tableName, IndexColumns(indexColumnNameArray));
    var missing := required.Keys - existing;
    CreateIndexesPreservesWellFormed(s, failing, tableName, required, missing);
    var added := CreateIndexes(s, failing, tableName, required, missing).value;
    DropIndexesPreservesWellFormed(added, failing, existing - required.Keys);
  }

  /** Reconciliation keeps the engine's integrity. */
  lemma FixTablePreservesWellFormed(s: State, failing: set<Stmt>, ty: ObjectType, tableName: string)
    requires WellFormed(s)
    requires FixTable(s, failing, ty, tableName).Some?
    ensures WellFormed(FixTable(s, failing, ty, tableName).value)
  {
    if !Tracked(s, failing, ty.name, tableName) {
      CreationPreservesWellFormed(s, failing, ty, tableName);
    } else if s.catalog[tableName].objectTypeVersion < ty.version {
      ColumnUpgradePreservesWellFormed(s, failing, tableName, ty.fields);
      var widened := ColumnUpgrade(s, failing, tableName, ty.fields).value;
      IndexUpgradePreservesWellFormed(widened, failing, tableName, ty.indexColumnNameArray);
      var indexed := IndexUpgrade(widened, failing, tableName, ty.indexColumnNameArray).value;
      ApplyPreservesWellFormed(indexed, ReplaceCatalog(TableInfo(tableName, ty.name, ty.version)));
    }
  }

  lemma {:induction false} ReplaceAllPreservesWellFormed<T>(s: State, failing: set<Stmt>, tableName: string,
                                                            encode: T -> Option<Row>, records: seq<T>)
    requires WellFormed(s)
    requires ReplaceAll(s, failing, tableName, encode, records).Some?
    ensures WellFormed(ReplaceAll(s, failing, tableName, encode, records).value)
    decreases |records|
  {
    if records != [] {
      var row := encode(records[0]).value;
      ApplyPreservesWellFormed(s, Replace(tableName, row));
      ReplaceAllPreservesWellFormed(Replaced(s, failing, tableName, Some(row)).value, failing, tableName, encode, records[1..]);
    }
  }

  /** After a write the keys are still unique, every row fits its table and every index names a column. */
  lemma WriteKeepsWellFormed<T>(s: State, failing: set<Stmt>, ty: ObjectType, codec: Codec<T>, tableName: string, record: T)
    requires WellFormed(s)
    ensures WellFormed(WriteOutcome(s, failing, ty, codec, tableName, record).state)
  {
    var ready := FixTable(s, failing, ty, tableName);
    if ready.Some? {
      FixTablePreservesWellFormed(s, failing, ty, tableName);
      var encoded := codec.encode(record);
      if encoded.Some? && Replaced(ready.value, failing, tableName, encoded).Some? {
        ApplyPreservesWellFormed(ready.value, Replace(tableName, encoded.value));
      }
    }
  }

  /** The same after an array write, whether it commits every row or only the reconciliation. */
  lemma WriteArrayKeepsWellFormed<T>(s: State, failing: set<Stmt>, ty: ObjectType, codec: Codec<T>, tableName: string, records: seq<T>)
    requires WellFormed(s)
    ensures WellFormed(WriteArrayOutcome(s, failing, ty, codec, tableName, records).state)
  {
    var ready := FixTable(s, failing, ty, tableName);
    if ready.Some? {
      FixTablePreservesWellFormed(s, failing, ty, tableName);
      if ReplaceAll(ready.value, failing, tableName, codec.encode, records).Some? {
        ReplaceAllPreservesWellFormed(ready.value, failing, tableName, codec.encode, records);
      }
    }
  }

  lemma UpdateKeepsWellFormed<T>(s: State, failing: set<Stmt>, ty: ObjectType, codec: Codec<T>, tableName: string,
                                 primaryKeyValue: Value, updateClosure: Option<T> -> Option<T>)
    requires WellFormed(s)
    ensures WellFormed(UpdateOutcome(s, failing, ty, codec, tableName, primaryKeyValue, updateClosure).state)
  {
    var answer := updateClosure(ReadOutcome(s, failing, ty, codec, tableName, primaryKeyValue));
    if answer.Some? {
      WriteKeepsWellFormed(s, failing, ty, codec, tableName, answer.value);
    }
  }

  lemma RemoveKeepsWellFormed(s: State, failing: set<Stmt>, ty: ObjectType, tableName: string, primaryKeyValue: Value)
    requires WellFormed(s)
    ensures WellFormed(RemoveOutcome(s, failing, ty, tableName, primaryKeyValue).state)
  {
    var delete := Delete(tableName, ty.primaryKeyColumnName, primaryKeyValue);
    if Tracked(s, failing, ty.name, tableName) && Execute(s, failing, delete).Some? {
      ApplyPreservesWellFormed(s, delete);
    }
  }

  lemma RemoveTableKeepsWellFormed(s: State, failing: set<Stmt>, ty: ObjectType, tableName: string)
    requires WellFormed(s)
    ensures WellFormed(RemoveTableOutcome(s, failing, ty, tableName).state)
  {
    if Tracked(s, failing, ty.name, tableName) && Execute(s, failing, DropTable(tableName)).Some? {
      ApplyPreservesWellFormed(s, DropTable(tableName));
      var dropped := Execute(s, failing, DropTable(tableName)).value;
      if Execute(dropped, failing, DeleteCatalog(tableName)).Some? {
        ApplyPreservesWellFormed(dropped, DeleteCatalog(tableName));
      }
    }
  }

  // ---------------------------------------------------------------------------------------
  // Reads after writes and removals
  // ---------------------------------------------------------------------------------------

  /** Reconciliation keeps an existing table's key, and a table it creates is keyed on the type's key. */
  lemma FixTableKey(s: State, failing: set<Stmt>, ty: ObjectType, tableName: string)
    requires FixTable(s, failing, ty, tableName).Some?
    requires tableName in FixTable(s, failing, ty, tableName).value.tables
    ensures FixTable(s, failing, ty, tableName).value.tables[tableName].key ==
      if tableName in s.tables then s.tables[tableName].key else ty.primaryKeyColumnName
  {
    if !Tracked(s, failing, ty.name, tableName) {
      var created := Execute(s, failing, CreateTable(tableName, ColumnDefs(ty.fields, ty.primaryKeyColumnName, false), ty.primaryKeyColumnName)).value;
      CreateIndexesInOrderKeeps(created, failing, tableName, IndexColumns(ty.indexColumnNameArray));
    } else if s.catalog[tableName].objectTypeVersion < ty.version {
      var widened := ColumnUpgrade(s, failing, tableName, ty.fields).value;
      ColumnUpgradeKeeps(s, failing, tableName, ty.fields);
      IndexUpgradeKeeps(widened, failing, tableName, ty.indexColumnNameArray);
    }
  }

  /** Reconciliation keeps every existing table's key and rows, and leaves every other table exactly as it was. */
  lemma FixTableKeepsRows(s: State, failing: set<Stmt>, ty: ObjectType, tableName: string)
    requires FixTable(s, failing, ty, tableName).Some?
    ensures var s' := FixTable(s, failing, ty, tableName).value;
      && (forall n :: n in s.tables ==>
            n in s'.tables && s'.tables[n].rows == s.tables[n].rows && s'.tables[n].key == s.tables[n].key)
      && (forall n :: n in s.tables && n != tableName ==> s'.tables[n] == s.tables[n])
  {
    if !Tracked(s, failing, ty.name, tableName) {
      var created := Execute(s, failing, CreateTable(tableName, ColumnDefs(ty.fields, ty.primaryKeyColumnName, false), ty.primaryKeyColumnName)).value;
      CreateIndexesInOrderKeeps(created, failing, tableName, IndexColumns(ty.indexColumnNameArray));
    } else if s.catalog[tableName].objectTypeVersion < ty.version {
      var widened := ColumnUpgrade(s, failing, tableName, ty.fields).value;
      ColumnUpgradeKeeps(s, failing, tableName, ty.fields);
      IndexUpgradeKeeps(widened, failing, tableName, ty.indexColumnNameArray);
    }
  }

  /**
   * A write touches one object: every other table is as it was, and every row of the written
   * table stored under another key than the new row's is still there.
   */
  lemma WriteKeepsOtherRows<T>(s: State, failing: set<Stmt>, ty: ObjectType, codec: Codec<T>, tableName: string, record: T)
    requires WriteOutcome(s, failing, ty, codec, tableName, record).result
    ensures FixTable(s, failing, ty, tableName).Some? && codec.encode(record).Some?
    ensures var ready := FixTable(s, failing, ty, tableName).value;
      tableName in ready.tables && StoredRow(ready.tables[tableName], codec.encode(record).value).Some?
    ensures var s' := WriteOutcome(s, failing, ty, codec, tableName, record).state;
      forall n :: n in s.tables && n != tableName ==> n in s'.tables && s'.tables[n] == s.tables[n]
    ensures var ready := FixTable(s, failing, ty, tableName).value;
      var stored := StoredRow(ready.tables[tableName], codec.encode(record).value).value;
      var key := ready.tables[tableName].key;
      var s' := WriteOutcome(s, failing, ty, codec, tableName, record).state;
      && stored in s'.tables[tableName].rows
      && (tableName in s.tables ==>
            forall row :: row in s.tables[tableName].rows && !Matches(row, key, stored[key]) ==> row in s'.tables[tableName].rows)
  {
    var ready := FixTable(s, failing, ty, tableName).value;
    FixTableKeepsRows(s, failing, ty, tableName);
    assert Replaced(ready, failing, tableName, codec.encode(record)).Some?;
  }

  /**
   * A successful write is read back: looking the object up by the key it was stored under yields
   * the decoding of the stored row. That row is the encoded one when it carries its key; when it
   * leaves an INTEGER key NULL, it is the encoded row with the rowid SQLite assigned. The table,
   * if it exists, is keyed on the type's key column.
   */
  lemma WriteThenRead<T>(s: State, failing: set<Stmt>, ty: ObjectType, codec: Codec<T>, tableName: string, record: T, row: Row)
    requires WriteOutcome(s, failing, ty, codec, tableName, record).result
    requires codec.encode(record) == Some(row)
    requires tableName in s.tables ==> s.tables[tableName].key == ty.primaryKeyColumnName
    requires SelectCatalog(tableName) !in failing
    requires forall v :: SelectByColumn(tableName, ty.primaryKeyColumnName, v) !in failing
    ensures FixTable(s, failing, ty, tableName).Some? && tableName in FixTable(s, failing, ty, tableName).value.tables
    ensures FixTable(s, failing, ty, tableName).value.tables[tableName].key == ty.primaryKeyColumnName
    ensures StoredRow(FixTable(s, failing, ty, tableName).value.tables[tableName], row).Some?
    ensures var stored := StoredRow(FixTable(s, failing, ty, tableName).value.tables[tableName], row).value;
      && (ty.primaryKeyColumnName in row && row[ty.primaryKeyColumnName] != Null ==> stored == row)
      && ReadOutcome(WriteOutcome(s, failing, ty, codec, tableName, record).state, failing, ty, codec, tableName,
                     stored[ty.primaryKeyColumnName]) == codec.decode(stored)
  {
    var ready := FixTable(s, failing, ty, tableName).value;
    FixTableTracks(s, failing, ty, tableName);
    FixTableKey(s, failing, ty, tableName);
    ReplaceThenRead(ready, failing, ty, codec, tableName, row);
  }

  /** One REPLACE into a tracked table keyed on the type's key is found again by the key it was stored under. */
  lemma ReplaceThenRead<T>(ready: State, failing: set<Stmt>, ty: ObjectType, codec: Codec<T>, tableName: string, row: Row)
    requires Replaced(ready, failing, tableName, Some(row)).Some?
    requires Tracked(ready, failing, ty.name, tableName)
    requires tableName in ready.tables && ready.tables[tableName].key == ty.primaryKeyColumnName
    requires forall v :: SelectByColumn(tableName, ty.primaryKeyColumnName, v) !in failing
    ensures StoredRow(ready.tables[tableName], row).Some?
    ensures var stored := StoredRow(ready.tables[tableName], row).value;
      ReadOutcome(Replaced(ready, failing, tableName, Some(row)).value, failing, ty, codec, tableName,
                  stored[ty.primaryKeyColumnName]) == codec.decode(stored)
  {
    var t := ready.tables[tableName];
    var stored := StoredRow(t, row).value;
    var written := Replaced(ready, failing, tableName, Some(row)).value;
    assert written == WithTable(ready, tableName, Inserted(t, stored));
    assert written.catalog == ready.catalog && written.catalogTable == ready.catalogTable;
    ReplacedRowIsFound(t.rows, t.key, stored);
    assert written.tables[tableName].rows == Keep(t.rows, t.key, stored[t.key]) + [stored];
  }

  /** After a successful removal the object is gone: reading it by the same key yields nil. */
  lemma RemoveThenRead<T>(s: State, failing: set<Stmt>, ty: ObjectType, codec: Codec<T>, tableName: string, primaryKeyValue: Value)
    requires RemoveOutcome(s, failing, ty, tableName, primaryKeyValue).result
    ensures ReadOutcome(RemoveOutcome(s, failing, ty, tableName, primaryKeyValue).state, failing, ty, codec, tableName, primaryKeyValue) == None
  {
    if Tracked(s, failing, ty.name, tableName) {
      var s' := RemoveOutcome(s, failing, ty, tableName, primaryKeyValue).state;
      var query := SelectFirst(s', failing, tableName, ty.primaryKeyColumnName, primaryKeyValue);
      if query.Some? {
        assert FirstMatch(s'.tables[tableName].rows, ty.primaryKeyColumnName, primaryKeyValue).None?;
      }
    }
  }

  /**
   * A successful write is seen by a later clause-free array read (`readObjectArray` with its
   * defaults): when that read succeeds, it contains the decoding of the stored row.
   */
  lemma WriteThenReadAll<T>(s: State, failing: set<Stmt>, ty: ObjectType, codec: Codec<T>, tableName: string, record: T,
                            resultSet: seq<Row>)
    requires WriteOutcome(s, failing, ty, codec, tableName, record).result
    requires var s' := WriteOutcome(s, failing, ty, codec, tableName, record).state;
      && (tableName in s'.tables ==> QueryResult(s'.tables[tableName], true, resultSet))
      && ReadArrayOutcome(s', failing, ty, codec, tableName, resultSet := resultSet).Some?
    ensures FixTable(s, failing, ty, tableName).Some? && codec.encode(record).Some?
    ensures var ready := FixTable(s, failing, ty, tableName).value;
      tableName in ready.tables && StoredRow(ready.tables[tableName], codec.encode(record).value).Some?
    ensures var ready := FixTable(s, failing, ty, tableName).value;
      var stored := StoredRow(ready.tables[tableName], codec.encode(record).value).value;
      var s' := WriteOutcome(s, failing, ty, codec, tableName, record).state;
      && codec.decode(stored).Some?
      && codec.decode(stored).value in ReadArrayOutcome(s', failing, ty, codec, tableName, resultSet := resultSet).value
  {
    WriteKeepsOtherRows(s, failing, ty, codec, tableName, record);
    var ready := FixTable(s, failing, ty, tableName).value;
    var stored := StoredRow(ready.tables[tableName], codec.encode(record).value).value;
    var s' := WriteOutcome(s, failing, ty, codec, tableName, record).state;
    var records := ReadArrayOutcome(s', failing, ty, codec, tableName, resultSet := resultSet).value;
    assert stored in s'.tables[tableName].rows;
    var i :| 0 <= i < |records| && codec.decode(stored) == Some(records[i]);
  }

  /** A clause-free array read of a tracked, existing and empty table gives an empty array, not nil. */
  lemma EmptyTableReadsEmpty<T>(s: State, failing: set<Stmt>, ty: ObjectType, codec: Codec<T>, tableName: string,
                                resultSet: seq<Row>)
    requires Tracked(s, failing, ty.name, tableName)
    requires tableName in s.tables && s.tables[tableName].rows == []
    requires Select(tableName, QuerySql(tableName), []) !in failing
    requires QueryResult(s.tables[tableName], true, resultSet)
    ensures ReadArrayOutcome(s, failing, ty, codec, tableName, resultSet := resultSet) == Some([])
  {
    ResultRowsAreStored(s.tables[tableName], true, resultSet);
  }

  /** After a successful table removal nothing of that type is read from it, by key or by query. */
  lemma RemoveTableThenRead<T>(s: State, failing: set<Stmt>, ty: ObjectType, codec: Codec<T>, tableName: string,
                               primaryKeyValue: Value, whereString: Option<string>, orderByName: Option<string>,
                               descending: bool, limit: Option<int>, resultSet: seq<Row>)
    requires RemoveTableOutcome(s, failing, ty, tableName).result
    requires var s' := RemoveTableOutcome(s, failing, ty, tableName).state;
      tableName in s'.tables ==> QueryResult(s'.tables[tableName], whereString.None? && limit.None?, resultSet)
    ensures var s' := RemoveTableOutcome(s, failing, ty, tableName).state;
      && !Tracked(s', failing, ty.name, tableName)
      && ReadOutcome(s', failing, ty, codec, tableName, primaryKeyValue) == None
      && ReadArrayOutcome(s', failing, ty, codec, tableName, whereString, orderByName, descending, limit, resultSet) == None
  {
  }

  // ---------------------------------------------------------------------------------------
  // Transaction outcomes
  // ---------------------------------------------------------------------------------------

  /** An empty array is reported as a failure, yet the reconciliation it triggered is committed. */
  lemma EmptyArrayCommitsReconciliation<T>(s: State, failing: set<Stmt>, ty: ObjectType, codec: Codec<T>, tableName: string)
    ensures WriteArrayOutcome(s, failing, ty, codec, tableName, []) ==
      match FixTable(s, failing, ty, tableName)
      case None => Outcome(false, s)
      case Some(ready) => Outcome(false, ready)
  {
  }

  /** Writing an array of one object is writing that object. */
  lemma SingletonArrayIsWrite<T>(s: State, failing: set<Stmt>, ty: ObjectType, codec: Codec<T>, tableName: string, record: T)
    ensures WriteArrayOutcome(s, failing, ty, codec, tableName, [record]) == WriteOutcome(s, failing, ty, codec, tableName, record)
  {
    var ready := FixTable(s, failing, ty, tableName);
    if ready.Some? {
      var written := Replaced(ready.value, failing, tableName, codec.encode(record));
      if written.Some? {
        assert ReplaceAll(written.value, failing, tableName, codec.encode, [record][1..]) == Some(written.value);
      }
    }
  }

  /** An array write either replaces every row or leaves the database exactly as it was. */
  lemma WriteArrayAllOrNothing<T>(s: State, failing: set<Stmt>, ty: ObjectType, codec: Codec<T>, tableName: string, records: seq<T>)
    requires records != []
    ensures var o := WriteArrayOutcome(s, failing, ty, codec, tableName, records);
      if o.result
      then o.state == ReplaceAll(FixTable(s, failing, ty, tableName).value, failing, tableName, codec.encode, records).value
      else o.state == s
  {
  }

  /** An update whose closure answers nil succeeds and changes nothing. */
  lemma NilUpdateChangesNothing<T>(s: State, failing: set<Stmt>, ty: ObjectType, codec: Codec<T>, tableName: string,
                                   primaryKeyValue: Value, updateClosure: Option<T> -> Option<T>)
    requires updateClosure(ReadOutcome(s, failing, ty, codec, tableName, primaryKeyValue)).None?
    ensures UpdateOutcome(s, failing, ty, codec, tableName, primaryKeyValue, updateClosure) == Outcome(true, s)
  {
  }

  /** Removing from, or removing, a table the catalog does not track for the type succeeds and changes nothing. */
  lemma UntrackedRemovalsChangeNothing(s: State, failing: set<Stmt>, ty: ObjectType, tableName: string, primaryKeyValue: Value)
    requires !Tracked(s, failing, ty.name, tableName)
    ensures RemoveOutcome(s, failing, ty, tableName, primaryKeyValue) == Outcome(true, s)
    ensures RemoveTableOutcome(s, failing, ty, tableName) == Outcome(true, s)
  {
  }

  // ---------------------------------------------------------------------------------------
  // clearAll
  // ---------------------------------------------------------------------------------------

  /**
   * After `clearAll` as written deletes the file, the new connection has no catalog table, so
   * every write and every non-nil update fails, whatever the object and whatever the faults.
   */
  lemma ClearedStoreRejectsWrites<T>(failing: set<Stmt>, ty: ObjectType, codec: Codec<T>, tableName: string, record: T,
                                     records: seq<T>, primaryKeyValue: Value, updateClosure: Option<T> -> Option<T>)
    requires updateClosure(None).Some?
    ensures FixTable(ClearedFile(true, Empty), failing, ty, tableName) == None
    ensures WriteOutcome(ClearedFile(true, Empty), failing, ty, codec, tableName, record) == Outcome(false, Empty)
    ensures !WriteArrayOutcome(ClearedFile(true, Empty), failing, ty, codec, tableName, records).result
    ensures UpdateOutcome(ClearedFile(true, Empty), failing, ty, codec, tableName, primaryKeyValue, updateClosure) == Outcome(false, Empty)
  {
    var created := Execute(Empty, failing, CreateTable(tableName, ColumnDefs(ty.fields, ty.primaryKeyColumnName, false), ty.primaryKeyColumnName));
    if created.Some? {
      var indexed := CreateIndexesInOrder(created.value, failing, tableName, IndexColumns(ty.indexColumnNameArray));
      if indexed.Some? {
        CreateIndexesInOrderKeeps(created.value, failing, tableName, IndexColumns(ty.indexColumnNameArray));
      }
    }
  }

  /** Ordered index creation succeeds when the columns are distinct, exist, and their names are free. */
  lemma {:induction false} CreateIndexesInOrderSucceeds(s: State, tableName: string, indexColumnNames: seq<string>)
    requires tableName in s.tables
    requires forall c :: c in indexColumnNames ==> c in s.tables[tableName].columns && IndexName(c, tableName) !in s.indexes
    requires forall i, j :: 0 <= i < j < |indexColumnNames| ==> indexColumnNames[i] != indexColumnNames[j]
    ensures CreateIndexesInOrder(s, {}, tableName, indexColumnNames).Some?
    decreases |indexColumnNames|
  {
    if indexColumnNames != [] {
      var c := indexColumnNames[0];
      var next := Apply(s, CreateIndex(IndexName(c, tableName), tableName, c)).value;
      var rest := indexColumnNames[1..];
      forall c' | c' in rest
        ensures c' in next.tables[tableName].columns && IndexName(c', tableName) !in next.indexes
      {
        var k :| 0 <= k < |rest| && rest[k] == c';
        assert indexColumnNames[k + 1] == c';
        if IndexName(c', tableName) == IndexName(c, tableName) {
          IndexNameInjective(c', c, tableName);
        }
      }
      forall i, j | 0 <= i < j < |rest| ensures rest[i] != rest[j] {
        assert rest[i] == indexColumnNames[i + 1] && rest[j] == indexColumnNames[j + 1];
      }
      CreateIndexesInOrderSucceeds(next, tableName, rest);
    }
  }

  /**
   * With the catalog table re-created, as `initDB` does, a fault-free store accepts the first
   * write of any object whose encoding fits its type: key among the fields, distinct index
   * columns that are fields, a row within the fields with a non-NULL key.
   */
  lemma ReinitializedStoreAcceptsWrites<T>(ty: ObjectType, codec: Codec<T>, tableName: string, record: T, row: Row)
    requires ty.primaryKeyColumnName in ty.fields
    requires forall c :: c in IndexColumns(ty.indexColumnNameArray) ==> c in ty.fields
    requires forall i, j :: 0 <= i < j < |IndexColumns(ty.indexColumnNameArray)| ==>
      IndexColumns(ty.indexColumnNameArray)[i] != IndexColumns(ty.indexColumnNameArray)[j]
    requires codec.encode(record) == Some(row)
    requires row.Keys <= ty.fields.Keys && ty.primaryKeyColumnName in row && row[ty.primaryKeyColumnName] != Null
    ensures WriteOutcome(ClearedFile(true, Empty).(catalogTable := true), {}, ty, codec, tableName, record).result
  {
    var s := ClearedFile(true, Empty).(catalogTable := true);
    var defs := ColumnDefs(ty.fields, ty.primaryKeyColumnName, false);
    ColumnDefsMarkOnlyTheKey(ty.fields, ty.primaryKeyColumnName, false);
    var created := Apply(s, CreateTable(tableName, defs, ty.primaryKeyColumnName)).value;
    assert created.tables[tableName].columns == defs;
    CreateIndexesInOrderSucceeds(created, tableName, IndexColumns(ty.indexColumnNameArray));
    CreateIndexesInOrderKeeps(created, {}, tableName, IndexColumns(ty.indexColumnNameArray));
  }
}
