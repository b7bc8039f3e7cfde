/**
 * The table-name catalog and the view catalog: insertion-ordered immutable
 * maps from the upper-case form of a name to the name as the database spells
 * it. A catalog is represented by its values in insertion order; the key of
 * each entry is the upper-case form of its value.
 */
module TableNames {
  import opened MetaData
  import opened Strings

  type NameCatalog = seq<string>

  /** A table survives the name filter unless it is a system table or an ignored table. */
  predicate IsCatalogued(policy: Policy, name: string) {
    !policy.isSystemTable(name) && !policy.isIgnoredTable(name)
  }

  /** The names put into the catalog builder, in row order. */
  function KeptTableNames(rows: seq<TableRow>, policy: Policy): seq<string>
    decreases |rows|
  {
    if rows == [] then []
    else
      var name := rows[|rows| - 1].tableName;
      KeptTableNames(rows[..|rows| - 1], policy) + (if IsCatalogued(policy, name) then [name] else [])
  }

  /** No two entries share a key. */
  predicate DistinctKeys(names: seq<string>) {
    forall i, j :: 0 <= i < j < |names| ==> Upper(names[i]) != Upper(names[j])
  }

  /**
   * Building an immutable map from the builder's entries fails on a repeated
   * key; a built map has one entry per name, finds each name under its
   * upper-case form, and has no other key.
   */
  function BuildCatalog(names: seq<string>): (r: Result<NameCatalog>)
    ensures r.Ok? <==> DistinctKeys(names)
    ensures r.Err? ==> r.error == DuplicateKey
    ensures r.Ok? ==> |r.value| == |names|
    ensures r.Ok? ==> forall n :: n in names ==> Lookup(r.value, Upper(n)) == Some(n)
    ensures r.Ok? ==> Keys(r.value) == set n | n in names :: Upper(n)
  {
    if DistinctKeys(names) then Ok(names) else Err(DuplicateKey)
  }

  /** What loadAllTableNames returns for a given table enumeration. */
  function TableNameCatalog(q: Query<TableRow>, policy: Policy): Result<NameCatalog> {
    match q
    case Failed => Err(SqlFailure(""))
    case Rows(rows) => BuildCatalog(KeptTableNames(rows, policy))
  }

  function Keys(c: NameCatalog): set<string> {
    set n | n in c :: Upper(n)
  }

  /** The value stored under `key`, if any. */
  function Lookup(c: NameCatalog, key: string): (r: Option<string>)
    ensures r.None? <==> key !in Keys(c)
    ensures r.Some? ==> r.value in c && Upper(r.value) == key
    ensures DistinctKeys(c) ==> forall n :: n in c && Upper(n) == key ==> r == Some(n)
  {
    if c == [] then None
    else if Upper(c[0]) == key then Some(c[0])
    else
      var r := Lookup(c[1..], key);
      assert DistinctKeys(c) ==> DistinctKeys(c[1..]) by {
        if DistinctKeys(c) {
          forall i, j | 0 <= i < j < |c[1..]| ensures Upper(c[1..][i]) != Upper(c[1..][j]) {
            assert c[1..][i] == c[i + 1] && c[1..][j] == c[j + 1];
          }
        }
      }
      assert Keys(c) == {Upper(c[0])} + Keys(c[1..]) by {
        assert forall n :: n in c <==> n == c[0] || n in c[1..];
      }
      r
  }

  /**
   * The loop of loadAllTableNames: every table row whose name passes the
   * filter is added under its upper-case name, and the map is built at the end.
   */
  method LoadAllTableNames(q: Query<TableRow>, policy: Policy) returns (r: Result<NameCatalog>)
    ensures r == TableNameCatalog(q, policy)
  {
    if q.Failed? {
      return Err(SqlFailure(""));
    }
    var rows := q.rows;
    var builder: seq<string> := [];
    for i := 0 to |rows|
      invariant builder == KeptTableNames(rows[..i], policy)
    {
      var tableName := rows[i].tableName;
      assert rows[..i + 1][..i] == rows[..i];
      if IsCatalogued(policy, tableName) {
        builder := builder + [tableName];
      }
    }
    assert rows[..|rows|] == rows;
    r := BuildCatalog(builder);
  }

  /** The builder receives exactly the names of the rows that pass the filter. */
  lemma {:induction false} KeptTableNamesMembers(rows: seq<TableRow>, policy: Policy)
    ensures forall n :: n in KeptTableNames(rows, policy)
              <==> exists i :: 0 <= i < |rows| && rows[i].tableName == n && IsCatalogued(policy, n)
    decreases |rows|
  {
    if rows != [] {
      var init := rows[..|rows| - 1];
      KeptTableNamesMembers(init, policy);
      forall n ensures n in KeptTableNames(rows, policy)
                 <==> exists i :: 0 <= i < |rows| && rows[i].tableName == n && IsCatalogued(policy, n)
      {
        if n in KeptTableNames(init, policy) {
          var i :| 0 <= i < |init| && init[i].tableName == n && IsCatalogued(policy, n);
          assert rows[i] == init[i];
        }
        if exists i :: 0 <= i < |rows| && rows[i].tableName == n && IsCatalogued(policy, n) {
          var i :| 0 <= i < |rows| && rows[i].tableName == n && IsCatalogued(policy, n);
          if i < |init| {
            assert init[i] == rows[i];
          }
        }
      }
    }
  }

  /**
   * The catalog holds an entry `Upper(n) -> n` exactly for the table rows
   * whose name `n` passes the filter, and a key is present only for such a row.
   */
  lemma CatalogEntries(rows: seq<TableRow>, policy: Policy)
    ensures TableNameCatalog(Rows(rows), policy).Ok? ==>
              var c := TableNameCatalog(Rows(rows), policy).value;
              && (forall i :: 0 <= i < |rows| && IsCatalogued(policy, rows[i].tableName)
                    ==> Lookup(c, Upper(rows[i].tableName)) == Some(rows[i].tableName))
              && (forall key :: key in Keys(c) <==>
                    exists i :: 0 <= i < |rows| && IsCatalogued(policy, rows[i].tableName)
                                && Upper(rows[i].tableName) == key)
  {
    var c := KeptTableNames(rows, policy);
    KeptTableNamesMembers(rows, policy);
    if DistinctKeys(c) {
      forall i | 0 <= i < |rows| && IsCatalogued(policy, rows[i].tableName)
        ensures Lookup(c, Upper(rows[i].tableName)) == Some(rows[i].tableName)
      {
        assert rows[i].tableName in c;
      }
      forall key ensures key in Keys(c) <==>
                exists i :: 0 <= i < |rows| && IsCatalogued(policy, rows[i].tableName)
                            && Upper(rows[i].tableName) == key
      {
        if key in Keys(c) {
          var n :| n in c && Upper(n) == key;
          var i :| 0 <= i < |rows| && rows[i].tableName == n && IsCatalogued(policy, n);
        }
        if exists i :: 0 <= i < |rows| && IsCatalogued(policy, rows[i].tableName)
                       && Upper(rows[i].tableName) == key {
          var i :| 0 <= i < |rows| && IsCatalogued(policy, rows[i].tableName)
                   && Upper(rows[i].tableName) == key;
          assert rows[i].tableName in c;
        }
      }
    }
  }

  /** No two rows that pass the filter have the same upper-case name. */
  predicate NoCataloguedClash(rows: seq<TableRow>, policy: Policy) {
    forall i, j :: 0 <= i < j < |rows| && IsCatalogued(policy, rows[i].tableName)
                   && IsCatalogued(policy, rows[j].tableName)
                   ==> Upper(rows[i].tableName) != Upper(rows[j].tableName)
  }

  lemma DistinctKeysSnoc(k: seq<string>, n: string)
    ensures DistinctKeys(k + [n]) <==> DistinctKeys(k) && forall m :: m in k ==> Upper(m) != Upper(n)
  {
    var k' := k + [n];
    if DistinctKeys(k') {
      forall i, j | 0 <= i < j < |k| ensures Upper(k[i]) != Upper(k[j]) {
        assert k'[i] == k[i] && k'[j] == k[j];
      }
      forall m | m in k ensures Upper(m) != Upper(n) {
        var p :| 0 <= p < |k| && k[p] == m;
        assert k'[p] == m && k'[|k|] == n;
      }
    }
  }

  lemma NoCataloguedClashSnoc(rows: seq<TableRow>, policy: Policy)
    requires rows != []
    ensures var init := rows[..|rows| - 1];
            var last := rows[|rows| - 1].tableName;
            NoCataloguedClash(rows, policy) <==>
              && NoCataloguedClash(init, policy)
              && (IsCatalogued(policy, last) ==>
                    forall i :: 0 <= i < |init| && IsCatalogued(policy, init[i].tableName)
                                ==> Upper(init[i].tableName) != Upper(last))
  {
    var init := rows[..|rows| - 1];
    assert forall i :: 0 <= i < |init| ==> init[i] == rows[i];
  }

  /**
   * Building the catalog fails exactly when two distinct rows that pass the
   * filter have the same upper-case name (whether spelled alike or not).
   */
  lemma {:induction false} CatalogDuplicates(rows: seq<TableRow>, policy: Policy)
    ensures DistinctKeys(KeptTableNames(rows, policy)) <==> NoCataloguedClash(rows, policy)
    decreases |rows|
  {
    if rows != [] {
      var init := rows[..|rows| - 1];
      var last := rows[|rows| - 1].tableName;
      var k := KeptTableNames(init, policy);
      CatalogDuplicates(init, policy);
      NoCataloguedClashSnoc(rows, policy);
      if IsCatalogued(policy, last) {
        assert KeptTableNames(rows, policy) == k + [last];
        DistinctKeysSnoc(k, last);
        KeptTableNamesMembers(init, policy);
        assert (forall m :: m in k ==> Upper(m) != Upper(last)) <==>
               forall i :: 0 <= i < |init| && IsCatalogued(policy, init[i].tableName)
                           ==> Upper(init[i].tableName) != Upper(last);
      } else {
        assert KeptTableNames(rows, policy) == k;
      }
    }
  }

  /** tableExists: the upper-cased argument is a key of the catalog. */
  predicate TableExists(c: NameCatalog, tableName: string) {
    Upper(tableName) in Keys(c)
  }

  /** isEmptyDatabase: the catalog has no entry. */
  predicate IsEmptyDatabase(c: NameCatalog) {
    |c| == 0
  }

  /**
   * Existence is insensitive to the case of the argument, and the database is
   * empty exactly when no table row passes the filter.
   */
  lemma ExistenceAndEmptiness(rows: seq<TableRow>, policy: Policy, tableName: string)
    requires TableNameCatalog(Rows(rows), policy).Ok?
    ensures var c := TableNameCatalog(Rows(rows), policy).value;
            && TableExists(c, tableName) == TableExists(c, Upper(tableName))
            && (IsEmptyDatabase(c) <==> forall i :: 0 <= i < |rows| ==> !IsCatalogued(policy, rows[i].tableName))
  {
    UpperIdempotent(tableName);
    KeptTableNamesMembers(rows, policy);
    var c := KeptTableNames(rows, policy);
    if !IsEmptyDatabase(c) {
      assert c[0] in c;
    }
  }

  /** Every table row whose name passes the filter makes its name exist, in any case. */
  lemma CataloguedTablesExist(rows: seq<TableRow>, policy: Policy, i: nat, spelling: string)
    requires TableNameCatalog(Rows(rows), policy).Ok?
    requires i < |rows| && IsCatalogued(policy, rows[i].tableName)
    requires EqualsIgnoreCase(spelling, rows[i].tableName)
    ensures TableExists(TableNameCatalog(Rows(rows), policy).value, spelling)
  {
    CatalogEntries(rows, policy);
  }

  /** The view names in row order (views are not filtered). */
  function ViewNames(rows: seq<TableRow>): (r: seq<string>)
    ensures |r| == |rows| && forall i :: 0 <= i < |rows| ==> r[i] == rows[i].tableName
  {
    seq(|rows|, i requires 0 <= i < |rows| => rows[i].tableName)
  }

  /**
   * The view catalog: every view row is keyed by its upper-case name, the map
   * build failing on a repeated key; a failed query is an SQL failure.
   */
  function ViewCatalog(q: Query<TableRow>): (r: Result<NameCatalog>)
    ensures q.Failed? ==> r == Err(SqlFailure("Error reading metadata for views"))
    ensures q.Rows? && r.Ok? ==> DistinctKeys(r.value)
    ensures q.Rows? && r.Ok? ==>
              forall i :: 0 <= i < |q.rows| ==> Lookup(r.value, Upper(q.rows[i].tableName)) == Some(q.rows[i].tableName)
    ensures q.Rows? && r.Err? <==> q.Rows? && !DistinctKeys(ViewNames(q.rows))
  {
    match q
    case Failed => Err(SqlFailure("Error reading metadata for views"))
    case Rows(rows) =>
      var r := BuildCatalog(ViewNames(rows));
      assert r.Ok? ==> forall i :: 0 <= i < |rows| ==> rows[i].tableName in r.value by {
        if r.Ok? {
          forall i | 0 <= i < |rows| ensures rows[i].tableName in r.value {
            assert r.value[i] == rows[i].tableName;
          }
        }
      }
      r
  }
}
