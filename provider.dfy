/**
 * The metadata provider: memoised table-name, column and view catalogs, a
 * cache of table objects keyed by upper-case name, and table objects whose
 * columns and indexes are read on first use and kept.
 */
module Provider {
  import opened MetaData
  import opened Strings
  import opened Names = TableNames
  import opened Catalog = ColumnCatalog
  import opened PrimaryKeys
  import ColumnOrder
  import IndexReader = Indexes

  /** tableNames.get(): the table-name catalog of the database. */
  function TableNamesOf(db: Database, policy: Policy): Result<NameCatalog> {
    TableNameCatalog(db.tables, policy)
  }

  /** allColumns.get(): the column catalog over the keys of the table-name catalog. */
  function AllColumnsOf(db: Database, policy: Policy): Result<ColumnMap> {
    match TableNamesOf(db, policy)
    case Err(e) => Err(e)
    case Ok(c) => ColumnCatalog(Keys(c), db.columns)
  }

  /**
   * loadTable exactly as written: the key query is issued with the looked-up
   * name, absent or not, before the name is checked. A failed key query
   * therefore wins over "not found"; a table found carries the catalog's
   * spelling of the name, equal to the requested one ignoring case.
   */
  function LoadTableAsWritten(db: Database, policy: Policy, name: string): (r: Result<(string, seq<string>)>)
    ensures TableNamesOf(db, policy).Err? ==> r == Err(TableNamesOf(db, policy).error)
    ensures TableNamesOf(db, policy).Ok? ==>
              var adjusted := Lookup(TableNamesOf(db, policy).value, Upper(name));
              && (db.primaryKeys(adjusted).Failed? ==>
                    r == Err(SqlFailure("Error reading primary keys for table [" + NameOrNull(adjusted) + "]")))
              && (db.primaryKeys(adjusted).Rows? && !Names.TableExists(TableNamesOf(db, policy).value, name) ==>
                    r == Err(TableNotFound(name)))
    ensures r.Ok? ==> && r.value.0 in TableNamesOf(db, policy).value
                      && EqualsIgnoreCase(r.value.0, name)
                      && Ok(r.value.1) == GetPrimaryKeys(Some(r.value.0), db.primaryKeys(Some(r.value.0)))
  {
    match TableNamesOf(db, policy)
    case Err(e) => Err(e)
    case Ok(c) =>
      var adjusted := Lookup(c, Upper(name));
      match GetPrimaryKeys(adjusted, db.primaryKeys(adjusted))
      case Err(e) => Err(e)
      case Ok(primaryKeys) =>
        if adjusted.None? then Err(TableNotFound(name)) else Ok((adjusted.value, primaryKeys))
  }

  /**
   * The corrected loadTable, with the name checked first: an unknown name is not found,
   * whatever the key query would do; a known one yields the catalog's
   * spelling of the name and the table's key names.
   */
  function LoadTableSpec(db: Database, policy: Policy, name: string): Result<(string, seq<string>)> {
    match TableNamesOf(db, policy)
    case Err(e) => Err(e)
    case Ok(c) =>
      match Lookup(c, Upper(name))
      case None => Err(TableNotFound(name))
      case Some(adjusted) =>
        match GetPrimaryKeys(Some(adjusted), db.primaryKeys(Some(adjusted)))
        case Err(e) => Err(e)
        case Ok(primaryKeys) => Ok((adjusted, primaryKeys))
  }

  /** readColumns of a loaded table: its entry of the column catalog, put in key order. */
  function ColumnsOfTable(db: Database, policy: Policy, tableName: string, primaryKeys: seq<string>): Result<seq<Column>> {
    match AllColumnsOf(db, policy)
    case Err(e) => Err(e)
    case Ok(m) =>
      if Upper(tableName) !in m then Err(NullReference)
      else ColumnOrder.ReadColumnsAsWritten(m[Upper(tableName)], primaryKeys)
  }

  /** readIndexes of a loaded table. */
  function IndexesOfTable(db: Database, policy: Policy, tableName: string): Result<seq<Index>> {
    match db.indexes(tableName)
    case Failed => Err(SqlFailure("Error reading metadata for table [" + tableName + "]"))
    case Rows(rows) => Ok(IndexReader.IndexesOf(rows, policy.shouldIgnoreIndex))
  }

  /** Every entry of `before` is still in `after`, holding the same table. */
  predicate CacheExtends(before: map<string, DatabaseTable>, after: map<string, DatabaseTable>) {
    forall k :: k in before ==> k in after && after[k] == before[k]
  }

  /** For each of the first |tables| names, the table is the one cached under its upper-case form. */
  predicate CachedUnder(names: seq<string>, tables: seq<DatabaseTable>, cache: map<string, DatabaseTable>) {
    |tables| <= |names| && forall j :: 0 <= j < |tables| ==> Upper(names[j]) in cache && tables[j] == cache[Upper(names[j])]
  }

  lemma CachedUnderStep(names: seq<string>, tables: seq<DatabaseTable>, before: map<string, DatabaseTable>,
                        after: map<string, DatabaseTable>, t: DatabaseTable)
    requires CachedUnder(names, tables, before) && CacheExtends(before, after) && |tables| < |names|
    requires Upper(names[|tables|]) in after && after[Upper(names[|tables|])] == t
    ensures CachedUnder(names, tables + [t], after)
  {
  }

  /** A table object: its name and key names are fixed, its columns and indexes read once. */
  class DatabaseTable {
    const provider: MetaDataProvider
    const name: string
    const primaryKeys: seq<string>
    var columns: Option<seq<Column>>
    var indexes: Option<seq<Index>>

    /** What has been read is what reading yields. */
    ghost predicate Valid()
      reads this
    {
      && (columns.Some? ==> ColumnsOfTable(provider.db, provider.policy, name, primaryKeys) == Ok(columns.value))
      && (indexes.Some? ==> IndexesOfTable(provider.db, provider.policy, name) == Ok(indexes.value))
    }

    constructor(provider: MetaDataProvider, name: string, primaryKeys: seq<string>)
      ensures this.provider == provider && this.name == name && this.primaryKeys == primaryKeys
      ensures columns.None? && indexes.None?
      ensures Valid()
    {
      this.provider := provider;
      this.name := name;
      this.primaryKeys := primaryKeys;
      columns := None;
      indexes := None;
    }

    /** A table read from the database is never temporary. */
    function IsTemporary(): (r: bool)
      ensures !r
    {
      false
    }

    /**
     * columns(): read on the first successful call and kept; every call
     * yields the table's columns in key order.
     */
    method Columns() returns (r: Result<seq<Column>>)
      requires Valid() && provider.Valid()
      modifies this, provider
      ensures Valid() && provider.Valid()
      ensures r == ColumnsOfTable(provider.db, provider.policy, name, primaryKeys)
      ensures old(columns).Some? ==> columns == old(columns)
      ensures r.Ok? ==> columns == Some(r.value)
      ensures indexes == old(indexes)
      ensures provider.tableCache == old(provider.tableCache)
    {
      if columns.Some? {
        return Ok(columns.value);
      }
      var all := provider.AllColumns();
      if all.Err? {
        return Err(all.error);
      }
      var key := Upper(name);
      if key !in all.value {
        return Err(NullReference);
      }
      r := ColumnOrder.ReadColumns(all.value[key], primaryKeys);
      if r.Ok? {
        columns := Some(r.value);
        assert Valid();
        forall k | k in provider.tableCache ensures provider.tableCache[k].Valid() {
          if provider.tableCache[k] != this {
            assert provider.tableCache[k].Valid();
          }
        }
      }
    }

    /**
     * indexes(): read on the first successful call and kept; every call
     * yields the table's indexes.
     */
    method Indexes() returns (r: Result<seq<Index>>)
      requires Valid()
      modifies this
      ensures Valid()
      ensures r == IndexesOfTable(provider.db, provider.policy, name)
      ensures old(indexes).Some? ==> indexes == old(indexes)
      ensures r.Ok? ==> indexes == Some(r.value)
      ensures columns == old(columns)
    {
      if indexes.Some? {
        return Ok(indexes.value);
      }
      r := IndexReader.ReadIndexes(name, provider.db.indexes(name), provider.policy.shouldIgnoreIndex);
      if r.Ok? {
        indexes := Some(r.value);
      }
    }
  }

  class MetaDataProvider {
    const db: Database
    const policy: Policy
    var tableNameCache: Option<NameCatalog>
    var columnCache: Option<ColumnMap>
    var viewCache: Option<NameCatalog>
    var tableCache: map<string, DatabaseTable>

    /** Every memo holds what computing it yields; every cached table was loaded under its key. */
    ghost predicate Valid()
      reads this, tableCache.Values
    {
      && (tableNameCache.Some? ==> TableNamesOf(db, policy) == Ok(tableNameCache.value))
      && (columnCache.Some? ==> AllColumnsOf(db, policy) == Ok(columnCache.value))
      && (viewCache.Some? ==> ViewCatalog(db.views) == Ok(viewCache.value))
      && forall k :: k in tableCache ==>
           && tableCache[k].provider == this
           && LoadTableAsWritten(db, policy, k) == Ok((tableCache[k].name, tableCache[k].primaryKeys))
           && tableCache[k].Valid()
    }

    constructor(db: Database, policy: Policy)
      ensures this.db == db && this.policy == policy
      ensures tableNameCache.None? && columnCache.None? && viewCache.None? && tableCache == map[]
      ensures Valid()
    {
      this.db := db;
      this.policy := policy;
      tableNameCache := None;
      columnCache := None;
      viewCache := None;
      tableCache := map[];
    }

    /** tableNames(): the catalog, loaded on the first successful call. */
    method TableNames() returns (r: Result<NameCatalog>)
      requires Valid()
      modifies this
      ensures Valid()
      ensures r == TableNamesOf(db, policy)
      ensures r.Ok? ==> tableNameCache == Some(r.value)
      ensures old(tableNameCache).Some? ==> tableNameCache == old(tableNameCache)
      ensures columnCache == old(columnCache) && viewCache == old(viewCache) && tableCache == old(tableCache)
    {
      if tableNameCache.Some? {
        return Ok(tableNameCache.value);
      }
      r := LoadAllTableNames(db.tables, policy);
      if r.Ok? {
        tableNameCache := Some(r.value);
      }
    }

    /** allColumns.get(): the column catalog, loaded on the first successful call. */
    method AllColumns() returns (r: Result<ColumnMap>)
      requires Valid()
      modifies this
      ensures Valid()
      ensures r == AllColumnsOf(db, policy)
      ensures r.Ok? ==> columnCache == Some(r.value)
      ensures old(columnCache).Some? ==> columnCache == old(columnCache)
      ensures viewCache == old(viewCache) && tableCache == old(tableCache)
    {
      if columnCache.Some? {
        return Ok(columnCache.value);
      }
      var names := TableNames();
      if names.Err? {
        return Err(names.error);
      }
      r := LoadAllColumns(Keys(names.value), db.columns);
      if r.Ok? {
        columnCache := Some(r.value);
      }
    }

    /** isEmptyDatabase(): the catalog has no entry. */
    method IsEmptyDatabase() returns (r: Result<bool>)
      requires Valid()
      modifies this
      ensures Valid()
      ensures TableNamesOf(db, policy).Err? ==> r == Err(TableNamesOf(db, policy).error)
      ensures TableNamesOf(db, policy).Ok? ==> r == Ok(Names.IsEmptyDatabase(TableNamesOf(db, policy).value))
      ensures columnCache == old(columnCache) && viewCache == old(viewCache) && tableCache == old(tableCache)
    {
      var names := TableNames();
      if names.Err? {
        return Err(names.error);
      }
      r := Ok(|names.value| == 0);
    }

    /** tableExists(name): the upper-cased name is a key of the catalog. */
    method TableExists(tableName: string) returns (r: Result<bool>)
      requires Valid()
      modifies this
      ensures Valid()
      ensures TableNamesOf(db, policy).Err? ==> r == Err(TableNamesOf(db, policy).error)
      ensures TableNamesOf(db, policy).Ok? ==> r == Ok(Names.TableExists(TableNamesOf(db, policy).value, tableName))
      ensures columnCache == old(columnCache) && viewCache == old(viewCache) && tableCache == old(tableCache)
    {
      var names := TableNames();
      if names.Err? {
        return Err(names.error);
      }
      r := Ok(Upper(tableName) in Keys(names.value));
    }

    /**
     * loadTable(name): the table object, or the failure of looking it up. The
     * key query is issued with the looked-up name before that name is checked.
     */
    method LoadTable(name: string) returns (r: Result<DatabaseTable>)
      requires Valid()
      modifies this
      ensures Valid()
      ensures r.Ok? <==> LoadTableAsWritten(db, policy, name).Ok?
      ensures r.Err? ==> r.error == LoadTableAsWritten(db, policy, name).error
      ensures r.Ok? ==> LoadTableAsWritten(db, policy, name) == Ok((r.value.name, r.value.primaryKeys))
      ensures r.Ok? ==> fresh(r.value) && r.value.provider == this && r.value.Valid()
      ensures r.Ok? ==> r.value.columns.None? && r.value.indexes.None?
      ensures columnCache == old(columnCache) && viewCache == old(viewCache) && tableCache == old(tableCache)
    {
      var names := TableNames();
      if names.Err? {
        return Err(names.error);
      }
      var adjusted := Lookup(names.value, Upper(name));
      var primaryKeys := GetPrimaryKeys(adjusted, db.primaryKeys(adjusted));
      if primaryKeys.Err? {
        return Err(primaryKeys.error);
      }
      if adjusted.None? {
        return Err(TableNotFound(name));
      }
      var table := new DatabaseTable(this, adjusted.value, primaryKeys.value);
      r := Ok(table);
    }

    /**
     * getTable(name): the table cached under the upper-cased name, loading it
     * on first use; once loaded, every later call yields the same object.
     */
    method GetTable(tableName: string) returns (r: Result<DatabaseTable>)
      requires Valid()
      modifies this
      ensures Valid()
      ensures r.Ok? <==> LoadTableAsWritten(db, policy, Upper(tableName)).Ok?
      ensures r.Err? ==> r.error == LoadTableAsWritten(db, policy, Upper(tableName)).error
      ensures r.Ok? ==> LoadTableAsWritten(db, policy, Upper(tableName)) == Ok((r.value.name, r.value.primaryKeys))
      ensures r.Ok? ==> Upper(tableName) in tableCache && tableCache[Upper(tableName)] == r.value
      ensures Upper(tableName) in old(tableCache) ==> r == Ok(old(tableCache)[Upper(tableName)])
      ensures CacheExtends(old(tableCache), tableCache)
      ensures forall k :: k in tableCache && k !in old(tableCache) ==> fresh(tableCache[k])
      ensures columnCache == old(columnCache) && viewCache == old(viewCache)
    {
      var key := Upper(tableName);
      if key in tableCache {
        return Ok(tableCache[key]);
      }
      r := LoadTable(key);
      if r.Ok? {
        tableCache := tableCache[key := r.value];
      }
    }

    /** `t` is this provider's valid table object for the catalogued name `n`, with its key names. */
    ghost predicate TableOf(t: DatabaseTable, n: string)
      reads this, t
    {
      && t.provider == this && t.Valid()
      && t.name == n
      && Ok(t.primaryKeys) == GetPrimaryKeys(Some(n), db.primaryKeys(Some(n)))
    }

    /**
     * tables(): the table object of every catalogued name, in catalog order;
     * it fails when the key query of some catalogued table fails.
     */
    method Tables() returns (r: Result<seq<DatabaseTable>>)
      requires Valid()
      modifies this
      ensures Valid()
      ensures r.Ok? <==> TableNamesOf(db, policy).Ok?
                         && forall i :: 0 <= i < |TableNamesOf(db, policy).value| ==>
                              db.primaryKeys(Some(TableNamesOf(db, policy).value[i])).Rows?
      ensures r.Ok? ==> |r.value| == |TableNamesOf(db, policy).value|
      ensures r.Ok? ==> forall i :: 0 <= i < |r.value| ==>
                          var n := TableNamesOf(db, policy).value[i];
                          Upper(n) in tableCache && r.value[i] == tableCache[Upper(n)] && TableOf(r.value[i], n)
      ensures CacheExtends(old(tableCache), tableCache)
      ensures columnCache == old(columnCache) && viewCache == old(viewCache)
    {
      var names := TableNames();
      if names.Err? {
        return Err(names.error);
      }
      r := TablesOf(names.value);
      if r.Ok? {
        CachedTablesFacts(this, names.value, r.value);
      }
    }

    /** The loop of tables(): getTable for each catalogued name in turn, stopping at the first failure. */
    method TablesOf(c: NameCatalog) returns (r: Result<seq<DatabaseTable>>)
      requires Valid() && TableNamesOf(db, policy) == Ok(c)
      modifies this
      ensures Valid()
      ensures r.Ok? <==> forall i :: 0 <= i < |c| ==> db.primaryKeys(Some(c[i])).Rows?
      ensures r.Ok? ==> |r.value| == |c| && CachedUnder(c, r.value, tableCache)
      ensures CacheExtends(old(tableCache), tableCache)
      ensures columnCache == old(columnCache) && viewCache == old(viewCache)
    {
      var tables: seq<DatabaseTable> := [];
      for i := 0 to |c|
        invariant Valid()
        invariant |tables| == i
        invariant CachedUnder(c, tables, tableCache)
        invariant forall j :: 0 <= j < i ==> db.primaryKeys(Some(c[j])).Rows?
        invariant CacheExtends(old(tableCache), tableCache)
        invariant columnCache == old(columnCache) && viewCache == old(viewCache)
      {
        ghost var before := tableCache;
        var table := GetCatalogued(c, i);
        if table.Err? {
          return Err(table.error);
        }
        CachedUnderStep(c, tables, before, tableCache, table.value);
        tables := tables + [table.value];
      }
      r := Ok(tables);
    }

    /** One step of tables(): getTable of the i-th catalogued name. */
    method GetCatalogued(c: NameCatalog, i: int) returns (r: Result<DatabaseTable>)
      requires Valid() && TableNamesOf(db, policy) == Ok(c) && 0 <= i < |c|
      modifies this
      ensures Valid()
      ensures r.Ok? <==> db.primaryKeys(Some(c[i])).Rows?
      ensures r.Ok? ==> Upper(c[i]) in tableCache && tableCache[Upper(c[i])] == r.value
      ensures CacheExtends(old(tableCache), tableCache)
      ensures columnCache == old(columnCache) && viewCache == old(viewCache)
    {
      r := GetTable(c[i]);
      CataloguedNameLoads(db, policy, i);
    }

    /** viewMappings.get(): the view catalog, loaded on the first successful call. */
    method ViewMappings() returns (r: Result<NameCatalog>)
      requires Valid()
      modifies this
      ensures Valid()
      ensures r == ViewCatalog(db.views)
      ensures r.Ok? ==> viewCache == Some(r.value)
      ensures old(viewCache).Some? ==> viewCache == old(viewCache)
      ensures tableNameCache == old(tableNameCache) && columnCache == old(columnCache) && tableCache == old(tableCache)
    {
      if viewCache.Some? {
        return Ok(viewCache.value);
      }
      r := ViewCatalog(db.views);
      if r.Ok? {
        viewCache := Some(r.value);
      }
    }

    /** viewExists(name): the upper-cased name is a key of the view catalog. */
    method ViewExists(viewName: string) returns (r: Result<bool>)
      requires Valid()
      modifies this
      ensures Valid()
      ensures ViewCatalog(db.views).Err? ==> r == Err(ViewCatalog(db.views).error)
      ensures ViewCatalog(db.views).Ok? ==>
                r == Ok(exists i :: 0 <= i < |ViewCatalog(db.views).value|
                                    && EqualsIgnoreCase(ViewCatalog(db.views).value[i], viewName))
      ensures tableNameCache == old(tableNameCache) && columnCache == old(columnCache) && tableCache == old(tableCache)
    {
      var views := ViewMappings();
      if views.Err? {
        return Err(views.error);
      }
      r := Ok(Upper(viewName) in Keys(views.value));
      UpperIdempotent(viewName);
      if Upper(viewName) in Keys(views.value) {
        var n :| n in views.value && Upper(n) == Upper(viewName);
        var i :| 0 <= i < |views.value| && views.value[i] == n;
        assert EqualsIgnoreCase(views.value[i], viewName);
      }
    }

    /** getView(name): the view under the upper-cased name; there being none is no error. */
    method GetView(viewName: string) returns (r: Result<Option<View>>)
      requires Valid()
      modifies this
      ensures Valid()
      ensures ViewCatalog(db.views).Err? ==> r == Err(ViewCatalog(db.views).error)
      ensures ViewCatalog(db.views).Ok? ==>
                r.Ok? && (r.value.Some? <==> Upper(viewName) in Keys(ViewCatalog(db.views).value))
      ensures r.Ok? && r.value.Some? ==>
                r.value.value.name in ViewCatalog(db.views).value && EqualsIgnoreCase(r.value.value.name, viewName)
      ensures tableNameCache == old(tableNameCache) && columnCache == old(columnCache) && tableCache == old(tableCache)
    {
      var views := ViewMappings();
      if views.Err? {
        return Err(views.error);
      }
      match Lookup(views.value, Upper(viewName))
      case None =>
        r := Ok(None);
      case Some(n) =>
        UpperIdempotent(viewName);
        r := Ok(Some(View(n)));
    }

    /** viewNames(): the name of every view, in catalog order. */
    method ViewNames() returns (r: Result<seq<string>>)
      requires Valid()
      modifies this
      ensures Valid()
      ensures r == ViewCatalog(db.views)
      ensures tableNameCache == old(tableNameCache) && columnCache == old(columnCache) && tableCache == old(tableCache)
    {
      var views := ViewMappings();
      if views.Err? {
        return Err(views.error);
      }
      var names := seq(|views.value|, i requires 0 <= i < |views.value| => View(views.value[i]).name);
      assert names == views.value;
      r := Ok(names);
    }

    /** views(): a view object for every catalogued view, in catalog order. */
    method Views() returns (r: Result<seq<View>>)
      requires Valid()
      modifies this
      ensures Valid()
      ensures r.Ok? <==> ViewCatalog(db.views).Ok?
      ensures r.Err? ==> r.error == ViewCatalog(db.views).error
      ensures r.Ok? ==> |r.value| == |ViewCatalog(db.views).value|
                        && forall i :: 0 <= i < |r.value| ==> r.value[i] == View(ViewCatalog(db.views).value[i])
      ensures tableNameCache == old(tableNameCache) && columnCache == old(columnCache) && tableCache == old(tableCache)
    {
      var views := ViewMappings();
      if views.Err? {
        return Err(views.error);
      }
      r := Ok(seq(|views.value|, i requires 0 <= i < |views.value| => View(views.value[i])));
    }
  }

  /** Tables cached under each catalogued name are those names' tables. */
  lemma CachedTablesFacts(p: MetaDataProvider, c: NameCatalog, tables: seq<DatabaseTable>)
    requires p.Valid() && TableNamesOf(p.db, p.policy) == Ok(c) && |tables| == |c|
    requires CachedUnder(c, tables, p.tableCache)
    ensures forall j :: 0 <= j < |c| ==> p.TableOf(tables[j], c[j]) && p.db.primaryKeys(Some(c[j])).Rows?
  {
    forall j | 0 <= j < |c| ensures p.TableOf(tables[j], c[j]) && p.db.primaryKeys(Some(c[j])).Rows? {
      CachedTableFacts(p, j);
    }
  }

  /** A table cached under a catalogued name is that name's table, with its key names. */
  lemma CachedTableFacts(p: MetaDataProvider, i: int)
    requires p.Valid() && TableNamesOf(p.db, p.policy).Ok? && 0 <= i < |TableNamesOf(p.db, p.policy).value|
    requires Upper(TableNamesOf(p.db, p.policy).value[i]) in p.tableCache
    ensures var n := TableNamesOf(p.db, p.policy).value[i];
            var t := p.tableCache[Upper(n)];
            p.TableOf(t, n) && p.db.primaryKeys(Some(n)).Rows?
  {
    CataloguedNameLoads(p.db, p.policy, i);
  }

  /**
   * An unknown name is not found, whatever the key query answers; a found
   * table carries the catalog's own spelling of the name, equal to the
   * requested one ignoring case.
   */
  lemma LoadTableOutcome(db: Database, policy: Policy, name: string)
    requires TableNamesOf(db, policy).Ok?
    ensures !TableExists(TableNamesOf(db, policy).value, name) ==> LoadTableSpec(db, policy, name) == Err(TableNotFound(name))
    ensures LoadTableSpec(db, policy, name).Ok? ==>
              && LoadTableSpec(db, policy, name).value.0 in TableNamesOf(db, policy).value
              && EqualsIgnoreCase(LoadTableSpec(db, policy, name).value.0, name)
    ensures TableExists(TableNamesOf(db, policy).value, name) ==>
              (LoadTableSpec(db, policy, name).Ok?
               <==> db.primaryKeys(Some(Lookup(TableNamesOf(db, policy).value, Upper(name)).value)).Rows?)
  {
    UpperIdempotent(name);
  }

  /**
   * Loading a catalogued name by its upper-case key finds that very entry:
   * the table carries the catalog's spelling and the name's key names.
   */
  lemma CataloguedNameLoads(db: Database, policy: Policy, i: int)
    requires TableNamesOf(db, policy).Ok? && 0 <= i < |TableNamesOf(db, policy).value|
    ensures var n := TableNamesOf(db, policy).value[i];
            && (LoadTableAsWritten(db, policy, Upper(n)).Ok? <==> db.primaryKeys(Some(n)).Rows?)
            && (LoadTableAsWritten(db, policy, Upper(n)).Ok? ==>
                  LoadTableAsWritten(db, policy, Upper(n)) == Ok((n, GetPrimaryKeys(Some(n), db.primaryKeys(Some(n))).value)))
            && LoadTableAsWritten(db, policy, Upper(n)) == LoadTableSpec(db, policy, Upper(n))
  {
    var c := TableNamesOf(db, policy).value;
    UpperIdempotent(c[i]);
    assert DistinctKeys(c);
    assert Lookup(c, Upper(c[i])) == Some(c[i]);
  }

  /**
   * Whenever the code as written loads a table, the corrected reading loads
   * the same one: the two differ only in which failure an unknown name gives.
   */
  lemma LoadTableAsWrittenRefines(db: Database, policy: Policy, name: string)
    ensures LoadTableAsWritten(db, policy, name).Ok? ==> LoadTableSpec(db, policy, name) == LoadTableAsWritten(db, policy, name)
    ensures LoadTableSpec(db, policy, name).Err? && LoadTableSpec(db, policy, name).error != TableNotFound(name)
            ==> LoadTableAsWritten(db, policy, name) == LoadTableSpec(db, policy, name)
  {
  }

  /**
   * The two readings of loadTable agree whenever the key query for an absent
   * name does not fail.
   */
  lemma LoadTableReadingsAgree(db: Database, policy: Policy, name: string)
    requires db.primaryKeys(None).Rows?
    ensures LoadTableAsWritten(db, policy, name) == LoadTableSpec(db, policy, name)
  {
  }

  /**
   * With an empty catalog and a driver that rejects a key query without a
   * table name, the code as written reports an SQL failure instead of the
   * table not being found.
   */
  lemma NotFoundMaskedScenario()
    ensures var db := Database(Rows([]), Rows([]), Rows([]), _ => Failed, _ => Rows([]));
            var policy := Policy(_ => false, _ => false, _ => false);
            && LoadTableAsWritten(db, policy, "T") == Err(SqlFailure("Error reading primary keys for table [null]"))
            && LoadTableSpec(db, policy, "T") == Err(TableNotFound("T"))
  {
    var db := Database(Rows([]), Rows([]), Rows([]), _ => Failed, _ => Rows([]));
    var policy := Policy(_ => false, _ => false, _ => false);
    var empty: seq<TableRow> := [];
    assert KeptTableNames(empty, policy) == [];
    assert TableNamesOf(db, policy) == Ok([]);
    assert Lookup([], Upper("T")) == None;
    assert db.primaryKeys(None) == Failed;
    assert "Error reading primary keys for table [" + NameOrNull(None) + "]" == "Error reading primary keys for table [null]";
  }

  /**
   * The columns in the catalog are never flagged as key columns and are
   * uniquely named. Reading a table's columns therefore fails only for a key
   * name that names none of them, and always succeeds when every key name
   * names one; exactly, it fails when one of the first key names, one per
   * flagged column, names no column.
   */
  lemma TableColumnsReadable(db: Database, policy: Policy, tableName: string, primaryKeys: seq<string>)
    requires AllColumnsOf(db, policy).Ok?
    requires Upper(tableName) in AllColumnsOf(db, policy).value
    ensures var columns := AllColumnsOf(db, policy).value[Upper(tableName)];
            && (ColumnsOfTable(db, policy, tableName, primaryKeys).Err? ==> ColumnOrder.MissingPrimaryKey(primaryKeys, columns).Some?)
            && (ColumnOrder.MissingPrimaryKey(primaryKeys, columns).None? ==> ColumnsOfTable(db, policy, tableName, primaryKeys).Ok?)
            && ColumnOrder.KeyCount(ColumnOrder.FlagPrimaryKeys(columns, primaryKeys)) <= |primaryKeys|
            && (ColumnsOfTable(db, policy, tableName, primaryKeys).Ok?
                <==> forall k :: 0 <= k < ColumnOrder.KeyCount(ColumnOrder.FlagPrimaryKeys(columns, primaryKeys))
                                 ==> primaryKeys[k] in ColumnOrder.NamesOf(columns))
  {
    var c := TableNamesOf(db, policy).value;
    var rows := db.columns.rows;
    var key := Upper(tableName);
    ColumnCatalogShape(Keys(c), rows);
    var columns := AllColumnsOf(db, policy).value[key];
    assert ColumnOrder.Unflagged(columns) by {
      forall j | 0 <= j < |columns| ensures !columns[j].primaryKey {
        assert ConvertColumn(RowsOfTable(rows, key)[j]) == Ok(columns[j]);
      }
    }
    assert ColumnOrder.UniqueNames(columns) by {
      forall i, j | 0 <= i < j < |columns| ensures columns[i].name != columns[j].name {
        assert Upper(columns[i].name) != Upper(columns[j].name);
      }
    }
    ColumnOrder.ReadColumnsSucceeds(columns, primaryKeys);
    ColumnOrder.ReadColumnsAsWrittenSucceeds(columns, primaryKeys);
  }
}
