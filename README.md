# Database metadata provider, modelled and verified in Dafny

This project models the JDBC schema reader of morf: `DatabaseMetaDataProvider`.
The provider turns the driver's metadata enumerations into a morf schema. The enumerations are the tables, columns, primary keys, indexes and views of a schema.

The model covers these parts:

- **Table-name catalog.** Each table that is neither a system table nor an ignored table is stored under its upper-case name. The keys of the resulting immutable map must be unique. A repeated key makes the build fail; the model calls this `DuplicateKey`.
- **Column catalog.** There is one list of columns per catalogued table. Each column is converted from its row as follows:
  - the SQL type code is mapped to a portable data type;
  - the column is nullable when `IS_NULLABLE` is "YES";
  - it is autonumbered from -1 when `IS_AUTOINCREMENT` is "YES";
  - its default is "0" for a column named `version` in any case, and "" for every other column.
- **Key names.** The primary-key names of a table are sorted by key sequence with a stable sort.
- **Column order.** `readColumns` and `applyPrimaryKeyOrder` flag the key columns. They then put the key columns into key order, in the slots that key columns occupy.
- **Indexes.** `readIndexes` drops nameless rows, the `PRIMARY` index and ignored indexes. It groups the remaining rows by index name, in the order the names are first seen.
- **Views.** The view catalog works like the table-name catalog, without filtering.
- **Provider object.** A class `MetaDataProvider` holds the memoised catalogs and the table cache. A class `DatabaseTable` reads its columns and indexes lazily.

The model describes the database as plain data, the record `MetaData.Database`. Each enumeration is either a failed query or a sequence of rows. The key and index queries are functions of the table name.

Each pure part of the source is a function with a named result. A lemma relates that function to an independent characterisation. Each loop in the source (`loadAllTableNames`, `loadAllColumns`, `applyPrimaryKeyOrder`, `readIndexes`, `tables`) is a method. Its loop invariant ties the state to a specification function of the rows read so far.

Java exceptions become the `Err` branch of a `Result`.

The provider classes follow the code as written, including the two defects listed under "## Findings". `loadTable` issues the key query before it checks the name (`LoadTableAsWritten`). `readColumns` checks only the key names that a key slot asks for (`ReadColumnsAsWritten`). The corrected readings are separate functions: `LoadTableSpec` and `ReadColumnsSpec`. Their intended properties are proved beside the code as written, together with the lemmas that relate the two readings.

## Model

| member | source | states |
|---|---|---|
| Strings.Upper | morf-core/src/main/java/org/alfasoftware/morf/jdbc/DatabaseMetaDataProvider.java:132 | an upper-cased name has the same length and no lower-case letter; each lower-case letter becomes its capital and every other character is kept (ASCII case mapping) |
| Strings.UpperIdempotent | morf-core/src/main/java/org/alfasoftware/morf/jdbc/DatabaseMetaDataProvider.java:141 | upper-casing an upper-cased name changes nothing, so a key looked up twice is the same key |
| TypeMapper.DataTypeFromSqlType | morf-core/src/main/java/org/alfasoftware/morf/jdbc/DatabaseMetaDataProvider.java:313-349 | the mapping succeeds exactly for the 23 listed `java.sql.Types` codes; a success lies in the family of codes of its data type; any other code is an unknown-type error carrying the type name, code and width |
| TypeMapper.FamiliesDisjoint | morf-core/src/main/java/org/alfasoftware/morf/jdbc/DatabaseMetaDataProvider.java:314-345 | no code belongs to two data-type families, so the switch is unambiguous |
| TypeMapper.MappingIsFamilyPartition | morf-core/src/main/java/org/alfasoftware/morf/jdbc/DatabaseMetaDataProvider.java:314-345 | the mapping yields data type d exactly when the code is in d's family |
| TypeMapper.MappingIgnoresNameAndWidth | morf-core/src/main/java/org/alfasoftware/morf/jdbc/DatabaseMetaDataProvider.java:313-349 | the outcome depends on the type code only; the name and width appear only in the error message |
| TableNames.BuildCatalog | morf-core/src/main/java/org/alfasoftware/morf/jdbc/DatabaseMetaDataProvider.java:189-197 | building the name map fails with a duplicate key exactly when two names share an upper-case key; a built map has one entry per name, finds every name under its upper-case form, and has no key other than those forms |
| TableNames.Lookup | morf-core/src/main/java/org/alfasoftware/morf/jdbc/DatabaseMetaDataProvider.java:402 | looking up a key finds nothing exactly when no name has that upper-case key; a name found has that key; on a well-formed catalog it finds the unique matching name |
| TableNames.LoadAllTableNames | morf-core/src/main/java/org/alfasoftware/morf/jdbc/DatabaseMetaDataProvider.java:167-203 | the loop over the table rows yields exactly the catalog of the rows that are neither system nor ignored tables; a failed enumeration is an SQL failure |
| TableNames.KeptTableNamesMembers | morf-core/src/main/java/org/alfasoftware/morf/jdbc/DatabaseMetaDataProvider.java:184-190 | a name is put in the catalog exactly when some table row carries it and passes both filters |
| TableNames.CatalogEntries | morf-core/src/main/java/org/alfasoftware/morf/jdbc/DatabaseMetaDataProvider.java:174-197 | each row that passes the filters maps its upper-case name to its own spelling; every key of the catalog comes from such a row |
| TableNames.CatalogDuplicates | morf-core/src/main/java/org/alfasoftware/morf/jdbc/DatabaseMetaDataProvider.java:189-197 | the build fails with a duplicate key exactly when two rows that pass the filters have names equal ignoring case |
| TableNames.DistinctKeysSnoc | morf-core/src/main/java/org/alfasoftware/morf/jdbc/DatabaseMetaDataProvider.java:189 | adding a name to a catalog keeps its keys distinct exactly when no earlier name has the same key |
| TableNames.ExistenceAndEmptiness | morf-core/src/main/java/org/alfasoftware/morf/jdbc/DatabaseMetaDataProvider.java:122-133 | `tableExists` ignores the case of its argument; `isEmptyDatabase` holds exactly when no table row passes the filters |
| TableNames.CataloguedTablesExist | morf-core/src/main/java/org/alfasoftware/morf/jdbc/DatabaseMetaDataProvider.java:131-133 | every table that passes the filters exists under any spelling equal to its name ignoring case |
| TableNames.ViewCatalog | morf-core/src/main/java/org/alfasoftware/morf/jdbc/DatabaseMetaDataProvider.java:612-654 | a failed view enumeration is the SQL failure "Error reading metadata for views"; the build fails exactly when two view names are equal ignoring case; on success each view row is found under its upper-case name |
| ColumnCatalog.SetColumnNullability | morf-core/src/main/java/org/alfasoftware/morf/jdbc/DatabaseMetaDataProvider.java:356-359 | the column becomes nullable when `IS_NULLABLE` is "YES"; nothing else changes |
| ColumnCatalog.SetColumnAutonumbered | morf-core/src/main/java/org/alfasoftware/morf/jdbc/DatabaseMetaDataProvider.java:366-369 | the column is autonumbered from -1 when `IS_AUTOINCREMENT` is "YES"; otherwise it is returned unchanged |
| ColumnCatalog.SetColumnDefaultValue | morf-core/src/main/java/org/alfasoftware/morf/jdbc/DatabaseMetaDataProvider.java:380-383 | the default is "0" exactly for a column named "version" ignoring case, and "" for every other column; nothing else changes |
| ColumnCatalog.ConvertColumn | morf-core/src/main/java/org/alfasoftware/morf/jdbc/DatabaseMetaDataProvider.java:269-282 | converting a row fails exactly for an unknown type code, with that code's error; otherwise the column keeps the row's name, width and scale, has its code's data type and carries the nullability, autonumber and default rules; it is not a key column |
| ColumnCatalog.LoadAllColumns | morf-core/src/main/java/org/alfasoftware/morf/jdbc/DatabaseMetaDataProvider.java:253-299 | the loop over the column rows yields exactly the column catalog specified over the catalogued table keys |
| ColumnCatalog.FirstTypeErrorIsFirstUnknownType | morf-core/src/main/java/org/alfasoftware/morf/jdbc/DatabaseMetaDataProvider.java:260-284 | the load fails on a type error exactly when some row of a catalogued table has an unknown type; the error is that of the first such row |
| ColumnCatalog.TableColumnsAreConvertedRows | morf-core/src/main/java/org/alfasoftware/morf/jdbc/DatabaseMetaDataProvider.java:284 | without a type error, each table receives its rows converted one by one, in row order |
| ColumnCatalog.ColumnCatalogShape | morf-core/src/main/java/org/alfasoftware/morf/jdbc/DatabaseMetaDataProvider.java:253-299 | a successful catalog has one entry per catalogued table, even a table with no columns; each entry holds that table's rows converted in order; no two columns of one table share an upper-case name |
| ColumnCatalog.UncataloguedRowIgnored | morf-core/src/main/java/org/alfasoftware/morf/jdbc/DatabaseMetaDataProvider.java:262-264 | a column row of a table that is not catalogued is skipped: removing it anywhere leaves the outcome unchanged |
| ColumnCatalog.VersionScenario | morf-core/src/main/java/org/alfasoftware/morf/jdbc/DatabaseMetaDataProvider.java:381 | a column VERSION defaults to "0" and a column NAME to "" |
| PrimaryKeys.InsertPermutes | morf-core/src/main/java/org/alfasoftware/morf/jdbc/DatabaseMetaDataProvider.java:478-483 | inserting one row adds exactly that row to the multiset |
| PrimaryKeys.InsertKeepsSorted | morf-core/src/main/java/org/alfasoftware/morf/jdbc/DatabaseMetaDataProvider.java:478-483 | inserting into a sequence sorted by key sequence keeps it sorted |
| PrimaryKeys.SortBySequence | morf-core/src/main/java/org/alfasoftware/morf/jdbc/DatabaseMetaDataProvider.java:478-483 | the sorted copy is a permutation of the key rows, ascending by key sequence |
| PrimaryKeys.GetPrimaryKeys | morf-core/src/main/java/org/alfasoftware/morf/jdbc/DatabaseMetaDataProvider.java:464-492 | a failed key query is the SQL failure naming the table ("null" when absent); otherwise there is one name per key row, namely the names of a permutation of the rows ascending by key sequence |
| PrimaryKeys.InsertIsStable | morf-core/src/main/java/org/alfasoftware/morf/jdbc/DatabaseMetaDataProvider.java:478-483 | inserting a row keeps the relative order of the rows that share any given key sequence |
| PrimaryKeys.SortIsStable | morf-core/src/main/java/org/alfasoftware/morf/jdbc/DatabaseMetaDataProvider.java:478-483 | the sort is stable: rows with equal key sequence keep their enumeration order |
| PrimaryKeys.CompositeKeyScenario | morf-core/src/main/java/org/alfasoftware/morf/jdbc/DatabaseMetaDataProvider.java:464-492 | key rows (A, 2) and (B, 1) give the names [B, A] |
| ColumnOrder.UniqueIndex | morf-core/src/main/java/org/alfasoftware/morf/jdbc/DatabaseMetaDataProvider.java:523 | indexing the columns by name succeeds exactly when the names are distinct; a success maps every name to its column and nothing else; a failure is a duplicate-key error |
| ColumnOrder.ApplyPrimaryKeyOrder | morf-core/src/main/java/org/alfasoftware/morf/jdbc/DatabaseMetaDataProvider.java:521-544 | the loop yields exactly the specified reordering, including its errors: a duplicate name, a key index past the end of the key list, or a key name with no column |
| ColumnOrder.ReorderErrorPersists | morf-core/src/main/java/org/alfasoftware/morf/jdbc/DatabaseMetaDataProvider.java:528-541 | once the reordering has failed on a prefix of the columns, the whole reordering fails with that error |
| ColumnOrder.ReorderFailsAtBadSlot | morf-core/src/main/java/org/alfasoftware/morf/jdbc/DatabaseMetaDataProvider.java:529-535 | the reordering fails exactly when some key slot has a key index past the end of the key names, or a key name with no column |
| ColumnOrder.PrimaryKeyOrderFails | morf-core/src/main/java/org/alfasoftware/morf/jdbc/DatabaseMetaDataProvider.java:521-544 | the reordering fails exactly when the names repeat or some key slot cannot be filled |
| ColumnOrder.PrimaryKeyOrderShape | morf-core/src/main/java/org/alfasoftware/morf/jdbc/DatabaseMetaDataProvider.java:521-544 | a successful reordering keeps the length and every non-key column in its slot; the k-th key slot holds a column of the list named by the k-th key name |
| ColumnOrder.ReadColumns | morf-core/src/main/java/org/alfasoftware/morf/jdbc/DatabaseMetaDataProvider.java:502-509 | the loop flags every column whose name is a key name, and the result is exactly that of reordering the flagged columns, as written: no key name is checked up front |
| ColumnOrder.ReadColumnsAsWritten | morf-core/src/main/java/org/alfasoftware/morf/jdbc/DatabaseMetaDataProvider.java:502-509 | a successful read has one column per column read; a failure is a repeated column name, a key slot past the end of the key names, or a key name with no column |
| ColumnOrder.FlagPrimaryKeys | morf-core/src/main/java/org/alfasoftware/morf/jdbc/DatabaseMetaDataProvider.java:505-507 | flagging keeps every column in its slot with all its fields but the key flag, and a column is a key column afterwards exactly when it was one or its name is a key name |
| ColumnOrder.ReadColumnsAsWrittenSucceeds | morf-core/src/main/java/org/alfasoftware/morf/jdbc/DatabaseMetaDataProvider.java:502-544 | for catalog columns (unflagged, uniquely named), the read as written succeeds exactly when each of the first key names, one per flagged column, names a column; later key names are never looked at |
| ColumnOrder.ReadColumnsSucceeds | morf-core/src/main/java/org/alfasoftware/morf/jdbc/DatabaseMetaDataProvider.java:502-544 | corrected reading (second finding): for catalog columns, the read that checks every key name succeeds exactly when every key name names a column |
| ColumnOrder.KeepsOtherColumns | morf-core/src/main/java/org/alfasoftware/morf/jdbc/DatabaseMetaDataProvider.java:506-540 | a column whose name is not a key name stays in its slot, unchanged |
| ColumnOrder.ReadColumnsKeyOrder | morf-core/src/main/java/org/alfasoftware/morf/jdbc/DatabaseMetaDataProvider.java:502-544 | for catalog columns, a successful read as written keeps the length and the non-key columns; its key columns, read in order, are the first key names, one per flagged column, and all of the key names when these are distinct and each names a column |
| ColumnOrder.FlagFacts | morf-core/src/main/java/org/alfasoftware/morf/jdbc/DatabaseMetaDataProvider.java:505-507 | flagging keeps the names, and marks as a key column exactly the columns whose name is a key name |
| ColumnOrder.KeyColumnNamesMembers | morf-core/src/main/java/org/alfasoftware/morf/jdbc/DatabaseMetaDataProvider.java:529-537 | a name is among the key-column names exactly when some key column carries it |
| ColumnOrder.KeyCountOfFlagged | morf-core/src/main/java/org/alfasoftware/morf/jdbc/DatabaseMetaDataProvider.java:505-507 | with distinct column names, there are at most as many flagged columns as key names; with distinct key names that all name a column, there are exactly as many |
| ColumnOrder.ReorderedKeyNames | morf-core/src/main/java/org/alfasoftware/morf/jdbc/DatabaseMetaDataProvider.java:528-541 | after reordering, the key columns read in order are the first key names, one per key slot |
| ColumnOrder.TrailingMissingKeyDropped | morf-core/src/main/java/org/alfasoftware/morf/jdbc/DatabaseMetaDataProvider.java:502-544 | code as written: columns A and B with key names [A, X] read as [A (flagged), B] without error |
| ColumnOrder.TrailingMissingKeyScenario | morf-core/src/main/java/org/alfasoftware/morf/jdbc/DatabaseMetaDataProvider.java:502-544 | code as written: the same input reads without error, while the corrected read reports key column X as missing |
| Indexes.ReadIndexes | morf-core/src/main/java/org/alfasoftware/morf/jdbc/DatabaseMetaDataProvider.java:553-601 | a failed index query is the SQL failure naming the table; otherwise the loop, with its shared column lists, yields exactly the specified indexes |
| Indexes.IndexesOf | morf-core/src/main/java/org/alfasoftware/morf/jdbc/DatabaseMetaDataProvider.java:558-596 | there is one index per distinct kept index name |
| Indexes.IndexNamesDistinct | morf-core/src/main/java/org/alfasoftware/morf/jdbc/DatabaseMetaDataProvider.java:583-591 | no index is reported twice |
| Indexes.IndexNamesAreKeptNames | morf-core/src/main/java/org/alfasoftware/morf/jdbc/DatabaseMetaDataProvider.java:565-579 | an index is reported exactly when some row carries its name and is kept; no reported index is the primary key index or an ignored one |
| Indexes.IndexNamesInFirstSeenOrder | morf-core/src/main/java/org/alfasoftware/morf/jdbc/DatabaseMetaDataProvider.java:585-590 | indexes appear in the order their names are first seen among the rows |
| Indexes.IndexesHaveColumns | morf-core/src/main/java/org/alfasoftware/morf/jdbc/DatabaseMetaDataProvider.java:583-594 | every reported index has at least one column; its first row is one of the rows, and its first column comes from that row |
| Indexes.NameSeen | morf-core/src/main/java/org/alfasoftware/morf/jdbc/DatabaseMetaDataProvider.java:583-594 | a name is reported exactly when it has a first kept row; an unreported name collects no columns |
| Indexes.IndexScenario | morf-core/src/main/java/org/alfasoftware/morf/jdbc/DatabaseMetaDataProvider.java:564-596 | rows PRIMARY/ID, IDX1/B (unique) and IDX1/C give the single unique index IDX1 on [B, C] |
| Indexes.IsPrimaryKeyIndex | morf-core/src/main/java/org/alfasoftware/morf/jdbc/DatabaseMetaDataProvider.java:678-680 | only the name PRIMARY is the primary-key index, compared case-sensitively: a name that qualifies is already upper case, so a spelling with a lower-case letter is an ordinary index |
| Provider.DatabaseTable.constructor | morf-core/src/main/java/org/alfasoftware/morf/jdbc/DatabaseMetaDataProvider.java:410-413 | a new table object has its name and key names, and nothing read yet |
| Provider.DatabaseTable.IsTemporary | morf-core/src/main/java/org/alfasoftware/morf/jdbc/DatabaseMetaDataProvider.java:449-452 | a table read from the database is never temporary |
| Provider.DatabaseTable.Columns | morf-core/src/main/java/org/alfasoftware/morf/jdbc/DatabaseMetaDataProvider.java:429-434 | the columns are read on the first successful call and kept; every call yields the result of readColumns as written on the table's entry of the column catalog |
| Provider.DatabaseTable.Indexes | morf-core/src/main/java/org/alfasoftware/morf/jdbc/DatabaseMetaDataProvider.java:441-446 | the indexes are read on the first successful call and kept; every call yields the table's indexes |
| Provider.MetaDataProvider.constructor | morf-core/src/main/java/org/alfasoftware/morf/jdbc/DatabaseMetaDataProvider.java:99-115 | a new provider has no catalog loaded and an empty table cache |
| Provider.MetaDataProvider.TableNames | morf-core/src/main/java/org/alfasoftware/morf/jdbc/DatabaseMetaDataProvider.java:149-151 | yields the table-name catalog, loading it on the first successful call; later calls give the memoised catalog |
| Provider.MetaDataProvider.AllColumns | morf-core/src/main/java/org/alfasoftware/morf/jdbc/DatabaseMetaDataProvider.java:99 | yields the column catalog over the keys of the table-name catalog, loading it once |
| Provider.MetaDataProvider.IsEmptyDatabase | morf-core/src/main/java/org/alfasoftware/morf/jdbc/DatabaseMetaDataProvider.java:122-124 | true exactly when the catalog is empty; a catalog failure propagates |
| Provider.MetaDataProvider.TableExists | morf-core/src/main/java/org/alfasoftware/morf/jdbc/DatabaseMetaDataProvider.java:131-133 | true exactly when the upper-cased name is a key of the catalog; a catalog failure propagates |
| Provider.MetaDataProvider.LoadTable | morf-core/src/main/java/org/alfasoftware/morf/jdbc/DatabaseMetaDataProvider.java:401-455 | the outcome is that of loadTable as written: the key query runs before the name is checked; a table loaded is fresh, carries the catalog's spelling and the sorted key names, and has read nothing yet |
| Provider.MetaDataProvider.GetTable | morf-core/src/main/java/org/alfasoftware/morf/jdbc/DatabaseMetaDataProvider.java:140-142 | the table is cached under the upper-cased name: a cached table is returned as is; otherwise the outcome is loadTable as written on the upper-cased name and a loaded table is added; no entry is removed or replaced, and every new entry is a fresh table |
| Provider.MetaDataProvider.Tables | morf-core/src/main/java/org/alfasoftware/morf/jdbc/DatabaseMetaDataProvider.java:158-160 | yields one table per catalog entry, in catalog order; the i-th is the table cached under the upper-case form of the i-th name, a valid table of this provider with that name and its sorted key names; it fails exactly when the catalog fails or some catalogued table's key query fails; no cache entry is removed or replaced |
| Provider.MetaDataProvider.TablesOf | morf-core/src/main/java/org/alfasoftware/morf/jdbc/DatabaseMetaDataProvider.java:158-160 | the loop of getTable over the catalogued names: it succeeds exactly when every name's key query succeeds, and the i-th table is the one cached under the i-th name's upper-case form |
| Provider.MetaDataProvider.GetCatalogued | morf-core/src/main/java/org/alfasoftware/morf/jdbc/DatabaseMetaDataProvider.java:158-160 | getTable of a catalogued name succeeds exactly when its key query succeeds, and caches the table under the name's upper-case form |
| Provider.MetaDataProvider.ViewMappings | morf-core/src/main/java/org/alfasoftware/morf/jdbc/DatabaseMetaDataProvider.java:612-654 | yields the view catalog, loading it on the first successful call |
| Provider.MetaDataProvider.ViewExists | morf-core/src/main/java/org/alfasoftware/morf/jdbc/DatabaseMetaDataProvider.java:755-757 | true exactly when some view's name equals the argument ignoring case |
| Provider.MetaDataProvider.GetView | morf-core/src/main/java/org/alfasoftware/morf/jdbc/DatabaseMetaDataProvider.java:764-766 | a view is found exactly when the upper-cased name is a key; a view found is catalogued and equal to the argument ignoring case; there being none is not an error |
| Provider.MetaDataProvider.ViewNames | morf-core/src/main/java/org/alfasoftware/morf/jdbc/DatabaseMetaDataProvider.java:773-775 | the names of the catalogued views, in enumeration order |
| Provider.MetaDataProvider.Views | morf-core/src/main/java/org/alfasoftware/morf/jdbc/DatabaseMetaDataProvider.java:782-784 | one view per catalogued name, in order, each carrying that name |
| Provider.LoadTableAsWritten | morf-core/src/main/java/org/alfasoftware/morf/jdbc/DatabaseMetaDataProvider.java:401-408 | loadTable as written: a catalog failure passes on; a failed key query is the key-query failure for the looked-up name ("null" when absent), even for an unknown name; an unknown name whose key query succeeds is not found; a table found is catalogued, equal to the request ignoring case, and carries its sorted key names |
| Provider.LoadTableOutcome | morf-core/src/main/java/org/alfasoftware/morf/jdbc/DatabaseMetaDataProvider.java:401-408 | corrected reading (first finding): when the name is checked first, a name not in the catalog is not found; a loaded table's name is catalogued and equals the request ignoring case; a known name loads exactly when its key query succeeds |
| Provider.CataloguedNameLoads | morf-core/src/main/java/org/alfasoftware/morf/jdbc/DatabaseMetaDataProvider.java:158-160 | loading a catalogued name by its upper-case key finds that very entry with its sorted key names; it succeeds exactly when the entry's key query succeeds, and the code as written and the corrected order agree on it |
| Provider.LoadTableReadingsAgree | morf-core/src/main/java/org/alfasoftware/morf/jdbc/DatabaseMetaDataProvider.java:401-408 | the code as written and the corrected order agree whenever a key query without a table name does not fail |
| Provider.LoadTableAsWrittenRefines | morf-core/src/main/java/org/alfasoftware/morf/jdbc/DatabaseMetaDataProvider.java:401-408 | whenever the code as written loads a table, the corrected order loads the same one; a failure of the corrected order other than "not found" is also the failure of the code as written |
| Provider.NotFoundMaskedScenario | morf-core/src/main/java/org/alfasoftware/morf/jdbc/DatabaseMetaDataProvider.java:401-408 | code as written: with an empty catalog and a driver that rejects a key query without a table name, an unknown table is an SQL failure instead of not found |
| Provider.TableColumnsReadable | morf-core/src/main/java/org/alfasoftware/morf/jdbc/DatabaseMetaDataProvider.java:502-509 | for a catalogued table, reading its columns as written fails only when some key name names none of its columns, always succeeds when every key name names one, and succeeds exactly when each of the first key names, one per flagged column, names a column |

## Left out

- JDBC plumbing is not modelled: the connection, `DatabaseMetaData` and result-set cursors. Each enumeration is a value (`Query`): a failure, or all of its rows.
- The positional column constants (`TABLE_NAME`, `COLUMN_SIZE`, ...) are not modelled: rows are records with named fields.
- An `SQLException` thrown while one row is read is not told apart from a failure of the whole query. Both are modelled as a failed query.
- The wrapper that `RuntimeSqlException` adds around a failure of the table or column enumeration is not modelled. Those failures carry an empty message. The messages that name a table, a view list or a key query are kept word for word.
- The message texts of `IllegalArgumentException` and `IllegalStateException` are not modelled. The error carries the name (`TableNotFound`, `MissingPrimaryKeyColumn`) or the type data (`UnknownSqlType`). `DuplicateKey` does not carry the key.
- Logging is not modelled.
- The thread safety of `Suppliers.memoize` and `LoadingCache` is not modelled.
- `getUnchecked` wraps a loader failure in `UncheckedExecutionException`; the model returns the loader's own error.
- Case mapping is ASCII only. `toUpperCase` in Java is locale- and Unicode-aware.
- PrimaryKeys.GetPrimaryKeys: the key sequence is read with `getShort`; its 16-bit truncation is not modelled, and sequences are unbounded integers.
- The defaults of `ColumnBuilder` are not modelled. They come from `SchemaUtils`, which is not part of this model. A new column is not nullable, not autonumbered and not a key column.
- `setAdditionalColumnMetadata` is not modelled: it returns the column unchanged, so the conversion skips it.
- The overridable hooks (`readTableName`, `readColumnName`, `getIndexName`, `getViewName`, `tableTypesForTables`, `getTableTypesForViews`) are not modelled. They are taken as their default field reads. `isSystemTable` and `isIgnoredTable` are predicates of `Policy`.
- `DatabaseMetaDataProviderUtils.shouldIgnoreIndex` is not part of this model. It is a predicate parameter.
- A null table, column or view name inside a row is not modelled. Every name is a string, and only the looked-up table name can be absent.
- The `View` object is reduced to its name. `knowsSelectStatement` and `knowsDependencies` always return false, and `getSelectStatement` and `getDependencies` always throw `UnsupportedOperationException`. None of them depends on the database.
- Indexes.ReadIndexes: the shared, mutable column lists are not modelled. They are a map from index position to its column list, so aliasing between the result and the working map is not modelled.
- The column map of one table is modelled as its column list in insertion order, which is what `values()` yields. The upper-case column key matters only to the duplicate-key check.
- ColumnOrder.ReadColumnsKeyOrder: its last clause, that the key columns list all of the key names, assumes distinct key names, which a database key enumeration gives but the code does not check.
- Provider.MetaDataProvider.Tables: its success condition is stated through the key queries of the catalogued names, not as the conjunction of the individual `getTable` outcomes. It does not state that the tables it adds to the cache are fresh objects; `GetTable` states that for a single call.

## Findings

| source | as written | input that shows it | evidently intended | confidence | as-written member | corrected member |
|---|---|---|---|---|---|---|
| morf-core/src/main/java/org/alfasoftware/morf/jdbc/DatabaseMetaDataProvider.java:401-408 | `loadTable` queries the primary keys with the looked-up name before checking that the name was found, so an unknown table issues a key query with a null table name | an empty catalog and a driver whose key query fails when no table name is given: `getTable("T")` fails reading primary keys for table [null] instead of reporting T not found | check the name first; an unknown table is always "not found" | not executed | Provider.NotFoundMaskedScenario | Provider.LoadTableOutcome |
| morf-core/src/main/java/org/alfasoftware/morf/jdbc/DatabaseMetaDataProvider.java:502-544 | `applyPrimaryKeyOrder` fills only as many key slots as there are flagged columns, so a key name that names no column is silently dropped when it comes last | columns [A, B], key names [A, X]: the result is [A (key), B] with no error | a key name with no column is an error, as it already is when it falls in a filled slot | not executed | ColumnOrder.TrailingMissingKeyScenario | ColumnOrder.ReadColumnsSucceeds |
