/**
 * The storage engine the object store talks to (SQLite reached through FMDB), reduced to the
 * state the store can observe: which tables exist with which columns, key and rows, which
 * named indexes exist, and the catalog table `cico_orm_table_info`. SQL text is not
 * interpreted; every statement the store issues is a `Stmt` value with a meaning on `State`.
 * A statement fails either for a reason SQLite itself would give (no such table, duplicate
 * column, index already exists, ...) or because the environment makes it fail: the
 * `failing` set stands for I/O errors, a full disk and every other fault outside the model.
 */
module Engine {
  import opened Wrappers

  /** Storage classes `SQLiteTypeDecoder` assigns to fields. */
  datatype SqlType = INTEGER | REAL | TEXT | BLOB

  datatype Value = Null | IntegerValue(i: int) | RealValue(r: real) | TextValue(t: string) | BlobValue(b: seq<bv8>)

  /** A row: column name to value; a column the row does not mention reads as NULL. */
  type Row = map<string, Value>

  datatype ColumnDef = ColumnDef(sqlType: SqlType, notNull: bool, primaryKey: bool, autoIncrement: bool)

  /**
   * A table: its columns, its primary-key column, its rows in insertion order, and the largest
   * integer key it has ever stored (the `sqlite_sequence` entry an AUTOINCREMENT key consults).
   */
  datatype Table = Table(columns: map<string, ColumnDef>, key: string, rows: seq<Row>, sequence: int)

  datatype IndexDef = IndexDef(table: string, column: string)

  /** One row of the catalog table (`ORMTableInfoModel`). */
  datatype TableInfo = TableInfo(tableName: string, objectTypeName: string, objectTypeVersion: int)

  /**
   * The database file. `catalogTable` says whether `cico_orm_table_info` exists; `catalog`
   * holds its rows keyed by `table_name`. Index names share one namespace, kept apart
   * from table names.
   */
  datatype State = State(
    catalogTable: bool,
    catalog: map<string, TableInfo>,
    tables: map<string, Table>,
    indexes: map<string, IndexDef>)

  /** Every statement the store sends to the engine. */
  datatype Stmt =
    | CreateCatalogTable
    | SelectCatalog(table: string)
    | ReplaceCatalog(info: TableInfo)
    | DeleteCatalog(table: string)
    | CreateTable(table: string, columns: map<string, ColumnDef>, key: string)
    | DropTable(table: string)
    | AddColumn(table: string, column: string, sqlType: SqlType)
    | CreateIndex(index: string, table: string, column: string)
    | DropIndex(index: string)
    | TableInfoPragma(table: string)
    | IndexQuery(table: string)
    | SelectByColumn(table: string, column: string, value: Value)
    | Select(table: string, sql: string, args: seq<Value>)
    | Replace(table: string, row: Row)
    | Delete(table: string, column: string, value: Value)

  const Empty := State(false, map[], map[], map[])

  /** `column = value` in a WHERE clause: NULL equals nothing. */
  predicate Matches(row: Row, column: string, value: Value) {
    value != Null && column in row && row[column] == value
  }

  /** The rows that `DELETE ... WHERE column = value` leaves, in order. */
  function Keep(rows: seq<Row>, column: string, value: Value): (kept: seq<Row>)
    ensures |kept| <= |rows|
    ensures forall r :: r in kept ==> r in rows && !Matches(r, column, value)
    ensures forall r :: r in rows && !Matches(r, column, value) ==> r in kept
  {
    if rows == [] then []
    else (if Matches(rows[0], column, value) then [] else [rows[0]]) + Keep(rows[1..], column, value)
  }

  /** The first row in insertion order with `column = value`: what `... LIMIT 1` returns. */
  function FirstMatch(rows: seq<Row>, column: string, value: Value): (r: Option<Row>)
    ensures r.Some? ==> r.value in rows && Matches(r.value, column, value)
    ensures r.None? <==> forall x :: x in rows ==> !Matches(x, column, value)
  {
    if rows == [] then None
    else if Matches(rows[0], column, value) then Some(rows[0])
    else FirstMatch(rows[1..], column, value)
  }

  /**
   * The key is an INTEGER PRIMARY KEY, which SQLite makes an alias for the rowid: a row that
   * leaves it NULL is given a fresh rowid instead of failing the NOT NULL constraint.
   */
  predicate IsRowidAlias(t: Table) {
    t.key in t.columns && t.columns[t.key].sqlType == INTEGER
  }

  /** The largest integer key among `rows`, None when no row has one. */
  function MaxIntegerKey(rows: seq<Row>, key: string): (m: Option<int>)
    ensures m.None? <==> forall r: Row :: r in rows ==> !(key in r && r[key].IntegerValue?)
    ensures forall r: Row :: r in rows && key in r && r[key].IntegerValue? ==> r[key].i <= m.value
  {
    if rows == [] then None
    else
      var rest := MaxIntegerKey(rows[1..], key);
      assert forall r: Row :: r in rows[1..] ==> r in rows;
      assert forall r: Row :: r in rows ==> r == rows[0] || r in rows[1..];
      if key in rows[0] && rows[0][key].IntegerValue? then
        var k := rows[0][key].i;
        Some(if rest.Some? && rest.value > k then rest.value else k)
      else rest
  }

  /**
   * The rowid SQLite assigns to a row that gives no key: one past the largest key in the table
   * (1 in an empty table), and with AUTOINCREMENT one past the largest key ever stored.
   */
  function FreshRowid(t: Table): (id: int)
    ensures forall r: Row :: r in t.rows && t.key in r && r[t.key].IntegerValue? ==> r[t.key].i < id
    ensures t.key in t.columns && t.columns[t.key].autoIncrement ==> t.sequence < id
  {
    var largest := match MaxIntegerKey(t.rows, t.key) case None => 0 case Some(m) => m;
    if t.key in t.columns && t.columns[t.key].autoIncrement && t.sequence > largest then t.sequence + 1
    else largest + 1
  }

  /**
   * The row `REPLACE INTO` stores: the row itself when it carries its key, the row with a fresh
   * rowid when it leaves an INTEGER PRIMARY KEY NULL, and None (NOT NULL fails) otherwise.
   */
  function StoredRow(t: Table, row: Row): (stored: Option<Row>)
    ensures t.key in row && row[t.key] != Null ==> stored == Some(row)
    ensures !(t.key in row && row[t.key] != Null) ==> (stored.Some? <==> IsRowidAlias(t))
    ensures stored.Some? ==>
      && stored.value.Keys == row.Keys + {t.key}
      && stored.value[t.key] != Null
      && (forall c :: c in row && c != t.key ==> stored.value[c] == row[c])
    ensures stored.Some? && !(t.key in row && row[t.key] != Null) ==>
      && stored.value[t.key] == IntegerValue(FreshRowid(t))
      && (forall r: Row :: r in t.rows ==> !Matches(r, t.key, stored.value[t.key]))
  {
    if t.key in row && row[t.key] != Null then Some(row)
    else if IsRowidAlias(t) then Some(row[t.key := IntegerValue(FreshRowid(t))])
    else None
  }

  /** The table after storing `stored`: any row with the same key is replaced, and the sequence follows the largest key. */
  function Inserted(t: Table, stored: Row): Table
    requires t.key in stored
  {
    var k := stored[t.key];
    t.(rows := Keep(t.rows, t.key, k) + [stored],
       sequence := if k.IntegerValue? && k.i > t.sequence then k.i else t.sequence)
  }

  function NewColumn(sqlType: SqlType): ColumnDef {
    ColumnDef(sqlType, false, false, false)
  }

  function WithTable(s: State, name: string, t: Table): State {
    s.(tables := s.tables[name := t])
  }

  /** The indexes that survive dropping table `name`: SQLite drops a table's indexes with it. */
  function IndexesNotOn(indexes: map<string, IndexDef>, name: string): (r: map<string, IndexDef>)
    ensures forall n :: n in r <==> n in indexes && indexes[n].table != name
    ensures forall n :: n in r ==> r[n] == indexes[n]
  {
    map n | n in indexes && indexes[n].table != name :: indexes[n]
  }

  /**
   * What an update statement does when the engine runs it: the new state, or None for the
   * errors SQLite reports. Queries change nothing.
   */
  function Apply(s: State, stmt: Stmt): (r: Option<State>)
    ensures stmt.SelectCatalog? || stmt.TableInfoPragma? || stmt.IndexQuery? || stmt.SelectByColumn? || stmt.Select? ==> r == Some(s)
    ensures r.Some? && (stmt.ReplaceCatalog? || stmt.DeleteCatalog?) ==> s.catalogTable
  {
    match stmt
    case CreateCatalogTable => Some(s.(catalogTable := true))
    case ReplaceCatalog(info) =>
      if !s.catalogTable then None else Some(s.(catalog := s.catalog[info.tableName := info]))
    case DeleteCatalog(name) =>
      if !s.catalogTable then None else Some(s.(catalog := s.catalog - {name}))
    case CreateTable(name, columns, key) =>
      if name in s.tables then Some(s)
      else if key !in columns then None
      else Some(WithTable(s, name, Table(columns, key, [], 0)))
    case DropTable(name) =>
      if name !in s.tables then None
      else Some(s.(tables := s.tables - {name}, indexes := IndexesNotOn(s.indexes, name)))
    case AddColumn(name, column, sqlType) =>
      if name !in s.tables || column in s.tables[name].columns then None
      else
        var t := s.tables[name];
        Some(WithTable(s, name, t.(columns := t.columns[column := NewColumn(sqlType)])))
    case CreateIndex(index, name, column) =>
      if index in s.indexes || name !in s.tables || column !in s.tables[name].columns then None
      else Some(s.(indexes := s.indexes[index := IndexDef(name, column)]))
    case DropIndex(index) =>
      if index !in s.indexes then None else Some(s.(indexes := s.indexes - {index}))
    case Replace(name, row) =>
      if name !in s.tables then None
      else
        var t := s.tables[name];
        if !(row.Keys <= t.columns.Keys) then None
        else
          (match StoredRow(t, row)
           case None => None
           case Some(stored) => Some(WithTable(s, name, Inserted(t, stored))))
    case Delete(name, column, value) =>
      if name !in s.tables || column !in s.tables[name].columns then None
      else
        var t := s.tables[name];
        Some(WithTable(s, name, t.(rows := Keep(t.rows, column, value))))
    case _ => Some(s)
  }

  /** A statement as the environment lets it run: injected faults first, then SQLite's own errors. */
  function Execute(s: State, failing: set<Stmt>, stmt: Stmt): (r: Option<State>)
    ensures stmt in failing ==> r.None?
    ensures stmt !in failing ==> r == Apply(s, stmt)
  {
    if stmt in failing then None else Apply(s, stmt)
  }

  /** The catalog row for `name`, or None when the catalog query fails or finds nothing. */
  function CatalogRow(s: State, failing: set<Stmt>, name: string): Option<TableInfo> {
    if SelectCatalog(name) in failing || !s.catalogTable || name !in s.catalog then None
    else Some(s.catalog[name])
  }

  /** `PRAGMA TABLE_INFO`: the column names; an empty set when the query fails or the table is missing. */
  function ColumnNames(s: State, failing: set<Stmt>, name: string): (r: set<string>)
    ensures name !in s.tables ==> r == {}
    ensures name in s.tables ==> r <= s.tables[name].columns.Keys
    ensures name in s.tables && TableInfoPragma(name) !in failing ==> r == s.tables[name].columns.Keys
  {
    if TableInfoPragma(name) in failing || name !in s.tables then {} else s.tables[name].columns.Keys
  }

  /** The index names `SQLITE_MASTER` lists for a table; an empty set when the query fails. */
  function IndexNames(s: State, failing: set<Stmt>, name: string): (r: set<string>)
    ensures r <= s.indexes.Keys
    ensures IndexQuery(name) in failing ==> r == {}
    ensures forall n :: n in r ==> s.indexes[n].table == name
    ensures IndexQuery(name) !in failing ==> forall n :: n in s.indexes && s.indexes[n].table == name ==> n in r
  {
    if IndexQuery(name) in failing then {} else set n | n in s.indexes && s.indexes[n].table == name
  }

  /**
   * `SELECT * FROM name WHERE column = ? LIMIT 1`: None when the query fails, else the first
   * matching row if any.
   */
  function SelectFirst(s: State, failing: set<Stmt>, name: string, column: string, value: Value): Option<Option<Row>> {
    if SelectByColumn(name, column, value) in failing || name !in s.tables || column !in s.tables[name].columns then None
    else Some(FirstMatch(s.tables[name].rows, column, value))
  }

  /**
   * What evaluating `SELECT * FROM t ...` can yield: rows of `t` (a WHERE or LIMIT keeps some,
   * an ORDER BY reorders them), and every row of `t` when the query has no WHERE and no LIMIT.
   */
  ghost predicate QueryResult(t: Table, complete: bool, resultSet: seq<Row>) {
    && multiset(resultSet) <= multiset(t.rows)
    && (complete ==> multiset(resultSet) == multiset(t.rows))
  }

  /** The rows of a query result are stored rows, and a complete result holds every stored row. */
  lemma ResultRowsAreStored(t: Table, complete: bool, resultSet: seq<Row>)
    requires QueryResult(t, complete, resultSet)
    ensures forall i :: 0 <= i < |resultSet| ==> resultSet[i] in t.rows
    ensures complete ==> |resultSet| == |t.rows| && forall row :: row in t.rows ==> row in resultSet
  {
    forall i | 0 <= i < |resultSet|
      ensures resultSet[i] in t.rows
    {
      assert resultSet[i] in multiset(resultSet);
    }
    if complete {
      assert |multiset(resultSet)| == |multiset(t.rows)|;
      forall row | row in t.rows
        ensures row in resultSet
      {
        assert row in multiset(t.rows);
      }
    }
  }

  /**
   * A query the model does not interpret (WHERE text, ORDER BY, LIMIT): it fails when the
   * table is missing or the environment fails it, else it yields `resultSet`, the rows the
   * engine's evaluation of the text produces, all of them rows of the table.
   */
  function SelectRows(s: State, failing: set<Stmt>, name: string, sql: string, args: seq<Value>, resultSet: seq<Row>): (r: Option<seq<Row>>)
    requires name in s.tables ==> QueryResult(s.tables[name], false, resultSet)
    ensures r.Some? <==> Select(name, sql, args) !in failing && name in s.tables
    ensures r.Some? ==> r.value == resultSet && forall i :: 0 <= i < |r.value| ==> r.value[i] in s.tables[name].rows
  {
    if Select(name, sql, args) in failing || name !in s.tables then None
    else
      ResultRowsAreStored(s.tables[name], false, resultSet);
      Some(resultSet)
  }

  /** Structural integrity SQLite maintains: keys are columns, rows fit their table, keys are unique, indexes point at columns. */
  ghost predicate WellFormed(s: State) {
    && (forall name :: name in s.tables ==> TableWellFormed(s.tables[name]))
    && (forall n :: n in s.indexes ==>
          s.indexes[n].table in s.tables && s.indexes[n].column in s.tables[s.indexes[n].table].columns)
  }

  ghost predicate TableWellFormed(t: Table) {
    && t.key in t.columns
    && (forall r :: r in t.rows ==> r.Keys <= t.columns.Keys && t.key in r && r[t.key] != Null)
    && (forall i, j :: 0 <= i < j < |t.rows| ==> t.rows[i][t.key] != t.rows[j][t.key])
  }

  /** Filtering keeps the rows' relative order, so a unique key stays unique. */
  lemma {:induction false} KeepPreservesUniqueKeys(rows: seq<Row>, key: string, column: string, value: Value)
    requires forall r :: r in rows ==> key in r
    requires forall i, j :: 0 <= i < j < |rows| ==> rows[i][key] != rows[j][key]
    ensures forall i, j :: 0 <= i < j < |Keep(rows, column, value)| ==>
      Keep(rows, column, value)[i][key] != Keep(rows, column, value)[j][key]
  {
    if rows != [] {
      KeepPreservesUniqueKeys(rows[1..], key, column, value);
      var rest := Keep(rows[1..], column, value);
      forall r | r in rest ensures r[key] != rows[0][key] {
        var k :| 0 <= k < |rows[1..]| && rows[1..][k] == r;
        assert rows[k + 1] == r;
      }
    }
  }

  /** Replacing a table by one that is well formed and has at least its columns keeps the database well formed. */
  lemma WithTablePreservesWellFormed(s: State, name: string, t: Table)
    requires WellFormed(s) && name in s.tables
    requires TableWellFormed(t) && s.tables[name].columns.Keys <= t.columns.Keys
    ensures WellFormed(WithTable(s, name, t))
  {
  }

  lemma ReplaceKeepsTableWellFormed(t: Table, row: Row)
    requires TableWellFormed(t)
    requires row.Keys <= t.columns.Keys && t.key in row && row[t.key] != Null
    ensures TableWellFormed(Inserted(t, row))
  {
    var kept := Keep(t.rows, t.key, row[t.key]);
    KeepPreservesUniqueKeys(t.rows, t.key, t.key, row[t.key]);
    var rows' := kept + [row];
    assert Inserted(t, row).rows == rows';
    forall i, j | 0 <= i < j < |rows'| ensures rows'[i][t.key] != rows'[j][t.key] {
      if j == |kept| {
        assert rows'[i] in kept;
      }
    }
  }

  lemma DeleteKeepsTableWellFormed(t: Table, column: string, value: Value)
    requires TableWellFormed(t)
    ensures TableWellFormed(t.(rows := Keep(t.rows, column, value)))
  {
    KeepPreservesUniqueKeys(t.rows, t.key, column, value);
  }

  /** Every update the engine accepts keeps the database well formed. */
  lemma ApplyPreservesWellFormed(s: State, stmt: Stmt)
    requires WellFormed(s)
    requires Apply(s, stmt).Some?
    ensures WellFormed(Apply(s, stmt).value)
  {
    match stmt
    case CreateTable(name, columns, key) =>
      if name !in s.tables {
        CreateTableKeepsWellFormed(s, name, columns, key);
      }
    case DropTable(name) =>
      DropTableKeepsWellFormed(s, name);
    case AddColumn(name, column, sqlType) =>
      var t := s.tables[name];
      WithTablePreservesWellFormed(s, name, t.(columns := t.columns[column := NewColumn(sqlType)]));
    case CreateIndex(index, name, column) =>
      CreateIndexKeepsWellFormed(s, index, name, column);
    case Replace(name, row) =>
      var t := s.tables[name];
      var stored := StoredRow(t, row).value;
      ReplaceKeepsTableWellFormed(t, stored);
      WithTablePreservesWellFormed(s, name, Inserted(t, stored));
    case Delete(name, column, value) =>
      var t := s.tables[name];
      DeleteKeepsTableWellFormed(t, column, value);
      WithTablePreservesWellFormed(s, name, t.(rows := Keep(t.rows, column, value)));
    case _ =>
  }

  lemma CreateTableKeepsWellFormed(s: State, name: string, columns: map<string, ColumnDef>, key: string)
    requires WellFormed(s) && name !in s.tables && key in columns
    ensures WellFormed(WithTable(s, name, Table(columns, key, [], 0)))
  {
    assert TableWellFormed(Table(columns, key, [], 0));
  }

  lemma DropTableKeepsWellFormed(s: State, name: string)
    requires WellFormed(s) && name in s.tables
    ensures WellFormed(s.(tables := s.tables - {name}, indexes := IndexesNotOn(s.indexes, name)))
  {
  }

  lemma CreateIndexKeepsWellFormed(s: State, index: string, name: string, column: string)
    requires WellFormed(s) && name in s.tables && column in s.tables[name].columns
    ensures WellFormed(s.(indexes := s.indexes[index := IndexDef(name, column)]))
  {
  }

  /**
   * A row that leaves an INTEGER PRIMARY KEY NULL is inserted, not rejected: it gets a rowid no
   * row has (past the sequence too, with AUTOINCREMENT), and every existing row stays.
   */
  lemma NullIntegerKeyIsAssigned(s: State, name: string, row: Row)
    requires name in s.tables && IsRowidAlias(s.tables[name])
    requires row.Keys <= s.tables[name].columns.Keys
    requires s.tables[name].key !in row || row[s.tables[name].key] == Null
    ensures Apply(s, Replace(name, row)).Some?
    ensures var t := s.tables[name];
      var id := FreshRowid(t);
      && Apply(s, Replace(name, row)).value.tables[name].rows == t.rows + [row[t.key := IntegerValue(id)]]
      && (forall r: Row :: r in t.rows && t.key in r && r[t.key].IntegerValue? ==> r[t.key].i < id)
      && (t.columns[t.key].autoIncrement ==> t.sequence < id)
  {
    var t := s.tables[name];
    var id := FreshRowid(t);
    var stored := row[t.key := IntegerValue(id)];
    assert StoredRow(t, row) == Some(stored);
    KeepWithoutMatches(t.rows, t.key, stored[t.key]);
    assert Inserted(t, stored).rows == t.rows + [stored];
    assert Apply(s, Replace(name, row)) == Some(WithTable(s, name, Inserted(t, stored)));
  }

  /** Deleting a value no row holds keeps every row. */
  lemma {:induction false} KeepWithoutMatches(rows: seq<Row>, column: string, value: Value)
    requires forall r :: r in rows ==> !Matches(r, column, value)
    ensures Keep(rows, column, value) == rows
  {
    if rows != [] {
      assert forall r :: r in rows[1..] ==> r in rows;
      KeepWithoutMatches(rows[1..], column, value);
    }
  }

  /** After `REPLACE INTO`, a lookup by key finds exactly the row written. */
  lemma ReplacedRowIsFound(rows: seq<Row>, key: string, row: Row)
    requires key in row && row[key] != Null
    ensures FirstMatch(Keep(rows, key, row[key]) + [row], key, row[key]) == Some(row)
  {
    var kept := Keep(rows, key, row[key]);
    FirstMatchAppend(kept, row, key, row[key]);
  }

  lemma {:induction false} FirstMatchAppend(rows: seq<Row>, row: Row, column: string, value: Value)
    requires forall x :: x in rows ==> !Matches(x, column, value)
    requires Matches(row, column, value)
    ensures FirstMatch(rows + [row], column, value) == Some(row)
  {
    if rows != [] {
      assert (rows + [row])[1..] == rows[1..] + [row];
      FirstMatchAppend(rows[1..], row, column, value);
    }
  }

  /**
   * The engine connection (`FMDatabase` behind an `FMDatabaseQueue`): the database state,
   * changed only by the statements it runs and by rolling back to a snapshot.
   */
  class Database {
    var state: State
    const failing: set<Stmt>

    constructor (initial: State, failing: set<Stmt>)
      ensures state == initial && this.failing == failing
    {
      state := initial;
      this.failing := failing;
    }

    /** `executeUpdate`: true and the statement's effect, or false and no change. */
    method ExecuteUpdate(stmt: Stmt) returns (ok: bool)
      modifies this
      ensures ok == Execute(old(state), failing, stmt).Some?
      ensures state == if ok then Execute(old(state), failing, stmt).value else old(state)
    {
      var next := Execute(state, failing, stmt);
      ok := next.Some?;
      if ok {
        state := next.value;
      }
    }

    /** Setting `rollback.pointee` in `inTransaction`: the state returns to the snapshot. */
    method Rollback(snapshot: State)
      modifies this
      ensures state == snapshot
    {
      state := snapshot;
    }

    method QueryCatalog(name: string) returns (r: Option<TableInfo>)
      ensures r == CatalogRow(state, failing, name)
    {
      r := CatalogRow(state, failing, name);
    }

    method QueryColumns(name: string) returns (r: set<string>)
      ensures r == ColumnNames(state, failing, name)
    {
      r := ColumnNames(state, failing, name);
    }

    method QueryIndexes(name: string) returns (r: set<string>)
      ensures r == IndexNames(state, failing, name)
    {
      r := IndexNames(state, failing, name);
    }

    method QueryFirst(name: string, column: string, value: Value) returns (r: Option<Option<Row>>)
      ensures r == SelectFirst(state, failing, name, column, value)
    {
      r := SelectFirst(state, failing, name, column, value);
    }

    method Query(name: string, sql: string, args: seq<Value>, resultSet: seq<Row>) returns (r: Option<seq<Row>>)
      requires name in state.tables ==> QueryResult(state.tables[name], false, resultSet)
      ensures r == SelectRows(state, failing, name, sql, args, resultSet)
    {
      r := SelectRows(state, failing, name, sql, args, resultSet);
    }
  }
}
