/**
 * The column catalog: one batched column enumeration turned into, for every
 * catalogued table key, the table's columns in row order. Each row is
 * converted by the type mapper and then passed through the nullability,
 * autonumber and default-value hooks, in that order.
 */
module ColumnCatalog {
  import opened MetaData
  import opened Strings
  import opened TypeMapper

  type ColumnMap = map<string, seq<Column>>

  /** A fresh column: not nullable, not autonumbered, no default, not part of the key. */
  function NewColumn(name: string, dataType: DataType, width: int, scale: int): Column {
    Column(name, dataType, width, scale, false, None, "", false)
  }

  /** The nullability hook only ever sets the flag, when IS_NULLABLE is "YES". */
  function SetColumnNullability(column: Column, isNullable: Option<string>): (r: Column)
    ensures r.nullable == (column.nullable || isNullable == Some("YES"))
    ensures r.(nullable := column.nullable) == column
  {
    if isNullable == Some("YES") then column.(nullable := true) else column
  }

  /** The autonumber hook marks the column autonumbered from -1 when IS_AUTOINCREMENT is "YES". */
  function SetColumnAutonumbered(column: Column, isAutoIncrement: Option<string>): (r: Column)
    ensures isAutoIncrement == Some("YES") ==> r.autoNumber == Some(-1)
    ensures isAutoIncrement != Some("YES") ==> r == column
    ensures r.(autoNumber := column.autoNumber) == column
  {
    if isAutoIncrement == Some("YES") then column.(autoNumber := Some(-1)) else column
  }

  /** The default-value hook: "0" for a column named "version" in any case, "" otherwise. */
  function SetColumnDefaultValue(column: Column): (r: Column)
    ensures r.defaultValue == "0" <==> EqualsIgnoreCase(column.name, "version")
    ensures r.defaultValue == "" <==> !EqualsIgnoreCase(column.name, "version")
    ensures r.(defaultValue := column.defaultValue) == column
  {
    column.(defaultValue := if EqualsIgnoreCase(column.name, "version") then "0" else "")
  }

  /**
   * Converts one column row. An unknown type code is an error; otherwise the
   * column carries the row's name, width and scale, the portable type of its
   * code, is nullable iff IS_NULLABLE is "YES", autonumbered from -1 iff
   * IS_AUTOINCREMENT is "YES", defaults to "0" iff it is named "version"
   * ignoring case (to "" otherwise), and is not yet flagged as a key column.
   */
  function ConvertColumn(row: ColumnRow): (r: Result<Column>)
    ensures r.Ok? <==> row.typeCode in KnownCodes()
    ensures r.Err? ==> r.error == UnknownSqlType(row.typeName, row.typeCode, row.width)
    ensures r.Ok? ==>
              && r.value.name == row.columnName
              && row.typeCode in FamilyCodes(r.value.dataType)
              && r.value.width == row.width && r.value.scale == row.scale
              && (r.value.nullable <==> row.isNullable == Some("YES"))
              && r.value.autoNumber == (if row.isAutoIncrement == Some("YES") then Some(-1) else None)
              && r.value.defaultValue == (if EqualsIgnoreCase(row.columnName, "version") then "0" else "")
              && !r.value.primaryKey
  {
    match DataTypeFromSqlType(row.typeCode, row.typeName, row.width)
    case Err(e) => Err(e)
    case Ok(dataType) =>
      var column := NewColumn(row.columnName, dataType, row.width, row.scale);
      var column := SetColumnNullability(column, row.isNullable);
      var column := SetColumnAutonumbered(column, row.isAutoIncrement);
      Ok(SetColumnDefaultValue(column))
  }

  /** The rows of the table with the given key, in row order. */
  function RowsOfTable(rows: seq<ColumnRow>, key: string): seq<ColumnRow>
    decreases |rows|
  {
    if rows == [] then []
    else
      var last := rows[|rows| - 1];
      RowsOfTable(rows[..|rows| - 1], key) + (if Upper(last.tableName) == key then [last] else [])
  }

  /** The error of the first row of a catalogued table whose conversion fails, if any. */
  function FirstTypeError(keys: set<string>, rows: seq<ColumnRow>): Option<Error>
    decreases |rows|
  {
    if rows == [] then None
    else
      var last := rows[|rows| - 1];
      match FirstTypeError(keys, rows[..|rows| - 1])
      case Some(e) => Some(e)
      case None =>
        if Upper(last.tableName) in keys && ConvertColumn(last).Err? then Some(ConvertColumn(last).error)
        else None
  }

  /** The columns the builder of one table receives, in row order. */
  function TableColumns(rows: seq<ColumnRow>, key: string): seq<Column>
    decreases |rows|
  {
    if rows == [] then []
    else
      var last := rows[|rows| - 1];
      var column := ConvertColumn(last);
      TableColumns(rows[..|rows| - 1], key)
        + (if Upper(last.tableName) == key && column.Ok? then [column.value] else [])
  }

  /** The builders after the loop: one per catalogued table, or the first type error. */
  function CollectColumns(keys: set<string>, rows: seq<ColumnRow>): Result<ColumnMap> {
    match FirstTypeError(keys, rows)
    case Some(e) => Err(e)
    case None => Ok(Builders(keys, rows))
  }

  /** No two columns of one table share an upper-case name. */
  predicate DistinctColumnKeys(columns: seq<Column>) {
    forall i, j :: 0 <= i < j < |columns| ==> Upper(columns[i].name) != Upper(columns[j].name)
  }

  /** Building every per-table map, which fails on a repeated column key. */
  function BuildColumnMaps(m: ColumnMap): Result<ColumnMap> {
    if forall k :: k in m ==> DistinctColumnKeys(m[k]) then Ok(m) else Err(DuplicateKey)
  }

  /** What loadAllColumns returns for the catalogued table keys and the column enumeration. */
  function ColumnCatalog(keys: set<string>, q: Query<ColumnRow>): Result<ColumnMap> {
    match q
    case Failed => Err(SqlFailure(""))
    case Rows(rows) =>
      match CollectColumns(keys, rows)
      case Err(e) => Err(e)
      case Ok(m) => BuildColumnMaps(m)
  }

  lemma {:induction false} FirstTypeErrorPersists(keys: set<string>, rows: seq<ColumnRow>, n: nat)
    requires n <= |rows|
    requires FirstTypeError(keys, rows[..n]).Some?
    ensures FirstTypeError(keys, rows) == FirstTypeError(keys, rows[..n])
    decreases |rows| - n
  {
    if n < |rows| {
      assert rows[..n + 1][..n] == rows[..n];
      FirstTypeErrorPersists(keys, rows, n + 1);
    } else {
      assert rows[..n] == rows;
    }
  }

  /** The builders before and after one more row. */
  function Builders(keys: set<string>, rows: seq<ColumnRow>): ColumnMap {
    map k | k in keys :: TableColumns(rows, k)
  }

  lemma {:induction false} StepError(keys: set<string>, rows: seq<ColumnRow>, i: nat)
    requires i < |rows| && FirstTypeError(keys, rows[..i]) == None
    ensures FirstTypeError(keys, rows[..i + 1]) ==
              if Upper(rows[i].tableName) in keys && ConvertColumn(rows[i]).Err? then Some(ConvertColumn(rows[i]).error)
              else None
  {
    assert rows[..i + 1][..i] == rows[..i];
  }

  lemma {:induction false} StepColumns(rows: seq<ColumnRow>, i: nat, k: string)
    requires i < |rows|
    ensures TableColumns(rows[..i + 1], k) == TableColumns(rows[..i], k) +
              if Upper(rows[i].tableName) == k && ConvertColumn(rows[i]).Ok? then [ConvertColumn(rows[i]).value] else []
  {
    assert rows[..i + 1][..i] == rows[..i];
  }

  /** One more row leaves the builders alone, or appends its column to its table's builder. */
  lemma {:induction false} StepBuilders(keys: set<string>, rows: seq<ColumnRow>, i: nat)
    requires i < |rows|
    ensures var key := Upper(rows[i].tableName);
            var m := Builders(keys, rows[..i]);
            Builders(keys, rows[..i + 1]) ==
              if key in keys && ConvertColumn(rows[i]).Ok? then m[key := m[key] + [ConvertColumn(rows[i]).value]] else m
  {
    var key := Upper(rows[i].tableName);
    var c := ConvertColumn(rows[i]);
    var m := Builders(keys, rows[..i]);
    var m' := Builders(keys, rows[..i + 1]);
    var expected := if key in keys && c.Ok? then m[key := m[key] + [c.value]] else m;
    assert m'.Keys == keys == expected.Keys;
    forall k | k in keys ensures m'[k] == expected[k] {
      StepColumns(rows, i, k);
    }
  }

  lemma NoRowsYet(keys: set<string>, rows: seq<ColumnRow>)
    ensures FirstTypeError(keys, rows[..0]) == None
    ensures Builders(keys, rows[..0]) == map k | k in keys :: []
  {
    assert rows[..0] == [];
  }

  /**
   * The loop of loadAllColumns: a row whose upper-cased table name is not
   * catalogued is skipped; any other row is converted (a type error aborts)
   * and appended to its table's builder; the maps are built at the end.
   */
  method LoadAllColumns(tableKeys: set<string>, q: Query<ColumnRow>) returns (r: Result<ColumnMap>)
    ensures r == ColumnCatalog(tableKeys, q)
  {
    if q.Failed? {
      return Err(SqlFailure(""));
    }
    var rows := q.rows;
    var builders: ColumnMap := map k | k in tableKeys :: [];
    NoRowsYet(tableKeys, rows);
    for i := 0 to |rows|
      invariant FirstTypeError(tableKeys, rows[..i]) == None
      invariant builders == Builders(tableKeys, rows[..i])
    {
      var row := rows[i];
      var key := Upper(row.tableName);
      StepError(tableKeys, rows, i);
      StepBuilders(tableKeys, rows, i);
      if key !in builders {
        continue;
      }
      var column := ConvertColumn(row);
      if column.Err? {
        FirstTypeErrorPersists(tableKeys, rows, i + 1);
        return Err(column.error);
      }
      builders := builders[key := builders[key] + [column.value]];
    }
    assert rows[..|rows|] == rows;
    r := BuildColumnMaps(builders);
  }

  /**
   * A type error is reported exactly when some row of a catalogued table has
   * an unknown type code, and it is the error of the first such row.
   */
  lemma {:induction false} FirstTypeErrorIsFirstUnknownType(keys: set<string>, rows: seq<ColumnRow>)
    ensures FirstTypeError(keys, rows).None? <==> forall i :: 0 <= i < |rows| ==> !UnknownAt(keys, rows, i)
    ensures FirstTypeError(keys, rows).Some? ==>
              exists i :: 0 <= i < |rows| && FirstUnknownAt(keys, rows, i)
                && FirstTypeError(keys, rows) == Some(UnknownSqlType(rows[i].typeName, rows[i].typeCode, rows[i].width))
    decreases |rows|
  {
    if rows != [] {
      var init := rows[..|rows| - 1];
      var n := |rows| - 1;
      FirstTypeErrorIsFirstUnknownType(keys, init);
      assert forall i :: 0 <= i < n ==> rows[i] == init[i];
      if FirstTypeError(keys, init).Some? {
        var i :| 0 <= i < |init| && FirstUnknownAt(keys, init, i)
                 && FirstTypeError(keys, init) == Some(UnknownSqlType(init[i].typeName, init[i].typeCode, init[i].width));
        NoneAfterSome(keys, rows, init, i);
        assert rows[i] == init[i];
      } else {
        LastDecides(keys, rows, init);
      }
    }
  }

  lemma {:induction false} NoneAfterSome(keys: set<string>, rows: seq<ColumnRow>, init: seq<ColumnRow>, i: nat)
    requires rows != [] && init == rows[..|rows| - 1]
    requires i < |init| && FirstUnknownAt(keys, init, i)
    requires FirstTypeError(keys, init) == Some(UnknownSqlType(init[i].typeName, init[i].typeCode, init[i].width))
    ensures FirstTypeError(keys, rows) == FirstTypeError(keys, init)
    ensures FirstUnknownAt(keys, rows, i) && UnknownAt(keys, rows, i)
  {
    assert rows[i] == init[i];
    forall j | 0 <= j < i ensures !UnknownAt(keys, rows, j) {
      assert rows[j] == init[j];
      assert !UnknownAt(keys, init, j);
    }
  }

  lemma {:induction false} LastDecides(keys: set<string>, rows: seq<ColumnRow>, init: seq<ColumnRow>)
    requires rows != [] && init == rows[..|rows| - 1]
    requires FirstTypeError(keys, init).None?
    requires forall i :: 0 <= i < |init| ==> !UnknownAt(keys, init, i)
    ensures FirstTypeError(keys, rows).None? <==> forall i :: 0 <= i < |rows| ==> !UnknownAt(keys, rows, i)
    ensures FirstTypeError(keys, rows).Some? ==>
              var n := |rows| - 1;
              && FirstUnknownAt(keys, rows, n)
              && FirstTypeError(keys, rows) == Some(UnknownSqlType(rows[n].typeName, rows[n].typeCode, rows[n].width))
  {
    var n := |rows| - 1;
    PrefixUnchanged(keys, rows, init);
    var last := rows[n];
    if Upper(last.tableName) in keys && ConvertColumn(last).Err? {
      assert UnknownAt(keys, rows, n);
      assert FirstTypeError(keys, rows) == Some(ConvertColumn(last).error);
    } else {
      assert !UnknownAt(keys, rows, n);
      assert FirstTypeError(keys, rows).None?;
    }
  }

  lemma {:induction false} PrefixUnchanged(keys: set<string>, rows: seq<ColumnRow>, init: seq<ColumnRow>)
    requires rows != [] && init == rows[..|rows| - 1]
    requires forall i :: 0 <= i < |init| ==> !UnknownAt(keys, init, i)
    ensures forall j :: 0 <= j < |rows| - 1 ==> !UnknownAt(keys, rows, j)
  {
    forall j | 0 <= j < |rows| - 1 ensures !UnknownAt(keys, rows, j) {
      assert rows[j] == init[j];
      assert !UnknownAt(keys, init, j);
    }
  }

  /** Row `i` belongs to a catalogued table and has an unknown type code. */
  predicate UnknownAt(keys: set<string>, rows: seq<ColumnRow>, i: nat)
    requires i < |rows|
  {
    Upper(rows[i].tableName) in keys && ConvertColumn(rows[i]).Err?
  }

  /** Row `i` is the first row of a catalogued table whose type code is unknown. */
  predicate FirstUnknownAt(keys: set<string>, rows: seq<ColumnRow>, i: nat)
    requires i < |rows|
  {
    UnknownAt(keys, rows, i) && forall j :: 0 <= j < i ==> !UnknownAt(keys, rows, j)
  }

  /**
   * Without a type error, a table's columns are its rows converted one by
   * one, in row order.
   */
  lemma {:induction false} TableColumnsAreConvertedRows(keys: set<string>, rows: seq<ColumnRow>, key: string)
    requires key in keys && FirstTypeError(keys, rows).None?
    ensures |TableColumns(rows, key)| == |RowsOfTable(rows, key)|
    ensures forall j :: 0 <= j < |RowsOfTable(rows, key)| ==>
              ConvertColumn(RowsOfTable(rows, key)[j]) == Ok(TableColumns(rows, key)[j])
    decreases |rows|
  {
    if rows != [] {
      var init := rows[..|rows| - 1];
      assert FirstTypeError(keys, init).None?;
      TableColumnsAreConvertedRows(keys, init, key);
    }
  }

  /**
   * A successful catalog has exactly one (possibly empty) column list per
   * catalogued table, holding that table's rows converted in row order, with
   * no two columns sharing an upper-case name.
   */
  lemma ColumnCatalogShape(keys: set<string>, rows: seq<ColumnRow>)
    requires ColumnCatalog(keys, Rows(rows)).Ok?
    ensures var m := ColumnCatalog(keys, Rows(rows)).value;
            && m.Keys == keys
            && forall k :: k in m ==>
                 && DistinctColumnKeys(m[k])
                 && |m[k]| == |RowsOfTable(rows, k)|
                 && forall j :: 0 <= j < |m[k]| ==> ConvertColumn(RowsOfTable(rows, k)[j]) == Ok(m[k][j])
  {
    forall k | k in keys
      ensures |TableColumns(rows, k)| == |RowsOfTable(rows, k)|
      ensures forall j :: 0 <= j < |RowsOfTable(rows, k)| ==>
                ConvertColumn(RowsOfTable(rows, k)[j]) == Ok(TableColumns(rows, k)[j])
    {
      TableColumnsAreConvertedRows(keys, rows, k);
    }
  }

  /**
   * A row whose table is not catalogued is skipped without error: removing it
   * from the enumeration, wherever it stands, does not change the outcome.
   */
  lemma {:induction false} UncataloguedRowIgnored(keys: set<string>, a: seq<ColumnRow>, row: ColumnRow, b: seq<ColumnRow>)
    requires Upper(row.tableName) !in keys
    ensures CollectColumns(keys, a + [row] + b) == CollectColumns(keys, a + b)
    ensures ColumnCatalog(keys, Rows(a + [row] + b)) == ColumnCatalog(keys, Rows(a + b))
  {
    UncataloguedRowIgnoredParts(keys, a, row, b);
    assert Builders(keys, a + [row] + b) == Builders(keys, a + b);
  }

  lemma {:induction false} UncataloguedRowIgnoredParts(keys: set<string>, a: seq<ColumnRow>, row: ColumnRow, b: seq<ColumnRow>)
    requires Upper(row.tableName) !in keys
    ensures FirstTypeError(keys, a + [row] + b) == FirstTypeError(keys, a + b)
    ensures forall k :: k in keys ==> TableColumns(a + [row] + b, k) == TableColumns(a + b, k)
    decreases |b|
  {
    if b == [] {
      assert (a + [row] + b)[..|a + [row] + b| - 1] == a;
      assert a + b == a;
    } else {
      var b' := b[..|b| - 1];
      UncataloguedRowIgnoredParts(keys, a, row, b');
      assert (a + [row] + b)[..|a + [row] + b| - 1] == a + [row] + b';
      assert (a + b)[..|a + b| - 1] == a + b';
      assert (a + [row] + b)[|a + [row] + b| - 1] == (a + b)[|a + b| - 1];
    }
  }

  /** The scenario of a VERSION column: its default is "0"; a NAME column's is "". */
  lemma VersionScenario()
    ensures ConvertColumn(ColumnRow("CUSTOMER", "VERSION", 4, "INTEGER", 10, 0, Some("NO"), Some("NO"))).value.defaultValue == "0"
    ensures ConvertColumn(ColumnRow("CUSTOMER", "NAME", 12, "VARCHAR", 50, 0, Some("YES"), None)).value.defaultValue == ""
  {
    assert Upper("VERSION") == "VERSION";
    assert Upper("version") == "VERSION";
  }
}
