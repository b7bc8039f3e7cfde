/**
 * The data model shared by every component: the portable schema entities
 * (columns, indexes, views), the rows the database's metadata interface
 * returns, the failures the provider raises, and the immutable snapshot of
 * the database that stands in for the live connection.
 */
module MetaData {

  datatype Option<T> = None | Some(value: T)

  /** The fixed set of portable data types. */
  datatype DataType = Integer | BigInteger | Decimal | String | Boolean | Date | Blob | Clob

  /**
   * A column definition. `autoNumber` is `Some(start)` for an autonumbered
   * column and `None` otherwise.
   */
  datatype Column = Column(
    name: string,
    dataType: DataType,
    width: int,
    scale: int,
    nullable: bool,
    autoNumber: Option<int>,
    defaultValue: string,
    primaryKey: bool)

  /** An index of a table: its name, uniqueness and ordered column names. */
  datatype Index = Index(name: string, isUnique: bool, columnNames: seq<string>)

  /**
   * A view loaded from the database carries its name only; it has no select
   * statement and no dependencies, so there is nothing to ask for them.
   */
  datatype View = View(name: string)

  /** The failures the provider raises, one constructor per kind. */
  datatype Error =
    | SqlFailure(message: string)                         // a metadata query failed
    | UnknownSqlType(typeName: string, typeCode: int, width: int)
    | DuplicateKey                                        // two entries of one immutable map share a key
    | TableNotFound(name: string)
    | MissingPrimaryKeyColumn(name: string)               // a key name with no column of that name
    | PrimaryKeyIndexOutOfBounds(index: int)              // more key slots than key names
    | NullReference                                       // a lookup of an absent map entry was dereferenced

  datatype Result<T> = Ok(value: T) | Err(error: Error)

  /** No element of the sequence occurs twice. */
  predicate Distinct(s: seq<string>) {
    forall i, j :: 0 <= i < j < |s| ==> s[i] != s[j]
  }

  /** The outcome of one metadata query: it fails as a whole, or yields its rows in order. */
  datatype Query<R> = Failed | Rows(rows: seq<R>)

  /** A row of the table (or view) enumeration: the table's name. */
  datatype TableRow = TableRow(tableName: string)

  /** A row of the batched column enumeration. */
  datatype ColumnRow = ColumnRow(
    tableName: string,
    columnName: string,
    typeCode: int,
    typeName: string,
    width: int,
    scale: int,
    isNullable: Option<string>,
    isAutoIncrement: Option<string>)

  /** A row of the primary-key enumeration of one table. */
  datatype PrimaryKeyRow = PrimaryKeyRow(keySequence: int, columnName: string)

  /** A row of the index enumeration of one table; statistics rows have no index name. */
  datatype IndexRow = IndexRow(nonUnique: bool, indexName: Option<string>, columnName: string)

  /** The vendor-overridable name filters. */
  datatype Policy = Policy(
    isSystemTable: string -> bool,
    isIgnoredTable: string -> bool,
    shouldIgnoreIndex: string -> bool)

  /**
   * A stable snapshot of what the connection's metadata interface answers:
   * the "TABLE" and "VIEW" enumerations, the batched column enumeration, and
   * the per-table key and index enumerations (the key query may be issued with
   * no table name).
   */
  datatype Database = Database(
    tables: Query<TableRow>,
    views: Query<TableRow>,
    columns: Query<ColumnRow>,
    primaryKeys: Option<string> -> Query<PrimaryKeyRow>,
    indexes: string -> Query<IndexRow>)
}
