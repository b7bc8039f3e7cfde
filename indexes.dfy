/**
 * Reading the indexes of one table: rows with no index name, rows of the
 * primary-key index and rows of ignored indexes are dropped; the remaining
 * rows are grouped by index name in first-seen order, each index taking its
 * uniqueness from its first row and its columns from its rows in order.
 */
module Indexes {
  import opened MetaData
  import opened Strings

  /**
   * The primary-key index is reported under the exact name "PRIMARY"; the
   * comparison is case-sensitive, so a spelling with a lower-case letter is
   * an ordinary index.
   */
  predicate IsPrimaryKeyIndex(indexName: string): (r: bool)
    ensures r ==> EqualsIgnoreCase(indexName, "PRIMARY")
    ensures r ==> Upper(indexName) == indexName
  {
    indexName == "PRIMARY"
  }

  /** A row that contributes to the result. */
  predicate Kept(row: IndexRow, shouldIgnoreIndex: string -> bool) {
    row.indexName.Some? && !IsPrimaryKeyIndex(row.indexName.value) && !shouldIgnoreIndex(row.indexName.value)
  }

  /** The names of the kept rows, each once, in the order first seen. */
  function IndexNames(rows: seq<IndexRow>, ignore: string -> bool): seq<string> {
    if rows == [] then []
    else
      var names := IndexNames(rows[..|rows| - 1], ignore);
      var last := rows[|rows| - 1];
      if Kept(last, ignore) && last.indexName.value !in names then names + [last.indexName.value] else names
  }

  /** The first kept row of index `name`, if any. */
  function FirstRowOf(rows: seq<IndexRow>, ignore: string -> bool, name: string): Option<IndexRow> {
    if rows == [] then None
    else
      var earlier := FirstRowOf(rows[..|rows| - 1], ignore, name);
      var last := rows[|rows| - 1];
      if earlier.Some? then earlier
      else if Kept(last, ignore) && last.indexName.value == name then Some(last)
      else None
  }

  /** The column names of the kept rows of index `name`, in row order. */
  function ColumnsOf(rows: seq<IndexRow>, ignore: string -> bool, name: string): seq<string> {
    if rows == [] then []
    else
      var last := rows[|rows| - 1];
      ColumnsOf(rows[..|rows| - 1], ignore, name)
      + (if Kept(last, ignore) && last.indexName.value == name then [last.columnName] else [])
  }

  /** The index named `name`: unique unless its first row says non-unique. */
  function IndexNamed(rows: seq<IndexRow>, ignore: string -> bool, name: string): Index {
    var unique := match FirstRowOf(rows, ignore, name)
      case Some(row) => !row.nonUnique
      case None => false;
    Index(name, unique, ColumnsOf(rows, ignore, name))
  }

  /** The indexes of the kept rows, in first-seen order. */
  function IndexesOf(rows: seq<IndexRow>, ignore: string -> bool): (r: seq<Index>)
    ensures |r| == |IndexNames(rows, ignore)|
  {
    var names := IndexNames(rows, ignore);
    seq(|names|, i requires 0 <= i < |names| => IndexNamed(rows, ignore, names[i]))
  }

  /**
   * readIndexes: a failed index query is an SQL failure naming the table;
   * otherwise one index per name, in first-seen order, each with the
   * uniqueness of its first row and the columns of its rows in order.
   */
  method ReadIndexes(tableName: string, q: Query<IndexRow>, ignore: string -> bool) returns (r: Result<seq<Index>>)
    ensures q.Failed? ==> r == Err(SqlFailure("Error reading metadata for table [" + tableName + "]"))
    ensures q.Rows? ==> r == Ok(IndexesOf(q.rows, ignore))
  {
    if q.Failed? {
      return Err(SqlFailure("Error reading metadata for table [" + tableName + "]"));
    }
    var rows := q.rows;
    var indexes: seq<Index> := [];
    // the position in `indexes` of each index's entry: its column list is shared
    var columnsByIndexName: map<string, nat> := map[];
    for i := 0 to |rows|
      invariant |indexes| == |IndexNames(rows[..i], ignore)|
      invariant forall j :: 0 <= j < |indexes| ==> indexes[j] == IndexNamed(rows[..i], ignore, IndexNames(rows[..i], ignore)[j])
      invariant forall n :: n in columnsByIndexName <==> n in IndexNames(rows[..i], ignore)
      invariant forall n :: n in columnsByIndexName ==>
                  columnsByIndexName[n] < |indexes| && IndexNames(rows[..i], ignore)[columnsByIndexName[n]] == n
    {
      var row := rows[i];
      if !Kept(row, ignore) {
        StepSkipped(rows, ignore, i);
      }
      if row.indexName.None? {
        continue;
      }
      var indexName := row.indexName.value;
      if IsPrimaryKeyIndex(indexName) {
        continue;
      }
      if ignore(indexName) {
        continue;
      }
      if indexName !in columnsByIndexName {
        StepNewIndex(rows, ignore, i);
        var unique := !row.nonUnique;
        indexes := indexes + [Index(indexName, unique, [row.columnName])];
        columnsByIndexName := columnsByIndexName[indexName := |indexes| - 1];
      } else {
        StepKnownIndex(rows, ignore, i);
        IndexNamesDistinct(rows[..i], ignore);
        var p := columnsByIndexName[indexName];
        indexes := indexes[p := indexes[p].(columnNames := indexes[p].columnNames + [row.columnName])];
      }
    }
    assert rows[..|rows|] == rows;
    assert indexes == IndexesOf(rows, ignore);
    r := Ok(indexes);
  }

  lemma StepSkipped(rows: seq<IndexRow>, ignore: string -> bool, i: int)
    requires 0 <= i < |rows| && !Kept(rows[i], ignore)
    ensures IndexNames(rows[..i + 1], ignore) == IndexNames(rows[..i], ignore)
    ensures forall n :: IndexNamed(rows[..i + 1], ignore, n) == IndexNamed(rows[..i], ignore, n)
  {
    assert rows[..i + 1][..i] == rows[..i];
  }

  lemma StepNewIndex(rows: seq<IndexRow>, ignore: string -> bool, i: int)
    requires 0 <= i < |rows| && Kept(rows[i], ignore)
    requires rows[i].indexName.value !in IndexNames(rows[..i], ignore)
    ensures IndexNames(rows[..i + 1], ignore) == IndexNames(rows[..i], ignore) + [rows[i].indexName.value]
    ensures IndexNamed(rows[..i + 1], ignore, rows[i].indexName.value)
            == Index(rows[i].indexName.value, !rows[i].nonUnique, [rows[i].columnName])
    ensures forall n :: n != rows[i].indexName.value ==> IndexNamed(rows[..i + 1], ignore, n) == IndexNamed(rows[..i], ignore, n)
  {
    assert rows[..i + 1][..i] == rows[..i];
    NameSeen(rows[..i], ignore);
  }

  lemma StepKnownIndex(rows: seq<IndexRow>, ignore: string -> bool, i: int)
    requires 0 <= i < |rows| && Kept(rows[i], ignore)
    requires rows[i].indexName.value in IndexNames(rows[..i], ignore)
    ensures IndexNames(rows[..i + 1], ignore) == IndexNames(rows[..i], ignore)
    ensures var n := rows[i].indexName.value;
            var before := IndexNamed(rows[..i], ignore, n);
            IndexNamed(rows[..i + 1], ignore, n) == before.(columnNames := before.columnNames + [rows[i].columnName])
    ensures forall n :: n != rows[i].indexName.value ==> IndexNamed(rows[..i + 1], ignore, n) == IndexNamed(rows[..i], ignore, n)
  {
    assert rows[..i + 1][..i] == rows[..i];
    NameSeen(rows[..i], ignore);
  }

  /**
   * An index name has been seen exactly when a first row for it exists; an
   * unseen name has no columns yet.
   */
  lemma {:induction false} NameSeen(rows: seq<IndexRow>, ignore: string -> bool)
    ensures forall n :: n in IndexNames(rows, ignore) <==> FirstRowOf(rows, ignore, n).Some?
    ensures forall n :: n !in IndexNames(rows, ignore) ==> ColumnsOf(rows, ignore, n) == []
  {
    if rows != [] {
      NameSeen(rows[..|rows| - 1], ignore);
    }
  }

  /** The index names are distinct. */
  lemma {:induction false} IndexNamesDistinct(rows: seq<IndexRow>, ignore: string -> bool)
    ensures Distinct(IndexNames(rows, ignore))
  {
    if rows != [] {
      IndexNamesDistinct(rows[..|rows| - 1], ignore);
    }
  }

  /**
   * A name is an index name exactly when some row carries it and is kept: so
   * no index is nameless, named "PRIMARY", or ignored.
   */
  lemma {:induction false} IndexNamesAreKeptNames(rows: seq<IndexRow>, ignore: string -> bool, n: string)
    ensures n in IndexNames(rows, ignore)
            <==> exists i :: 0 <= i < |rows| && Kept(rows[i], ignore) && rows[i].indexName.value == n
    ensures n in IndexNames(rows, ignore) ==> !IsPrimaryKeyIndex(n) && !ignore(n)
  {
    if rows != [] {
      var init := rows[..|rows| - 1];
      IndexNamesAreKeptNames(init, ignore, n);
      if exists i :: 0 <= i < |rows| && Kept(rows[i], ignore) && rows[i].indexName.value == n {
        var i :| 0 <= i < |rows| && Kept(rows[i], ignore) && rows[i].indexName.value == n;
        if i < |init| {
          assert init[i] == rows[i];
        }
      }
      if n in IndexNames(init, ignore) {
        var i :| 0 <= i < |init| && Kept(init[i], ignore) && init[i].indexName.value == n;
        assert rows[i] == init[i];
      }
    }
  }

  /**
   * Names appear in first-seen order: of two index names, the earlier one's
   * first row comes first among the rows.
   */
  lemma {:induction false} IndexNamesInFirstSeenOrder(rows: seq<IndexRow>, ignore: string -> bool, j: int, k: int)
    requires 0 <= j < k < |IndexNames(rows, ignore)|
    ensures exists a :: 0 <= a < |rows| && Kept(rows[a], ignore) && rows[a].indexName.value == IndexNames(rows, ignore)[j]
              && forall b :: 0 <= b <= a ==> !(Kept(rows[b], ignore) && rows[b].indexName.value == IndexNames(rows, ignore)[k])
  {
    var init := rows[..|rows| - 1];
    var names := IndexNames(rows, ignore);
    var initNames := IndexNames(init, ignore);
    var last := rows[|rows| - 1];
    if k < |initNames| {
      assert names[j] == initNames[j] && names[k] == initNames[k];
      IndexNamesInFirstSeenOrder(init, ignore, j, k);
      var a :| 0 <= a < |init| && Kept(init[a], ignore) && init[a].indexName.value == initNames[j]
                && forall b :: 0 <= b <= a ==> !(Kept(init[b], ignore) && init[b].indexName.value == initNames[k]);
      assert rows[a] == init[a];
      forall b | 0 <= b <= a ensures !(Kept(rows[b], ignore) && rows[b].indexName.value == names[k]) {
        assert rows[b] == init[b];
      }
    } else {
      assert names[j] == initNames[j] && names[k] == last.indexName.value && last.indexName.value !in initNames;
      IndexNamesAreKeptNames(init, ignore, names[j]);
      var a :| 0 <= a < |init| && Kept(init[a], ignore) && init[a].indexName.value == names[j];
      assert rows[a] == init[a];
      forall b | 0 <= b <= a ensures !(Kept(rows[b], ignore) && rows[b].indexName.value == names[k]) {
        assert rows[b] == init[b];
        IndexNamesAreKeptNames(init, ignore, names[k]);
      }
    }
  }

  /** Every index has at least one column, and its first row is one of its rows. */
  lemma {:induction false} IndexesHaveColumns(rows: seq<IndexRow>, ignore: string -> bool, n: string)
    requires n in IndexNames(rows, ignore)
    ensures |ColumnsOf(rows, ignore, n)| >= 1
    ensures FirstRowOf(rows, ignore, n).Some?
    ensures FirstRowOf(rows, ignore, n).value in rows
    ensures ColumnsOf(rows, ignore, n)[0] == FirstRowOf(rows, ignore, n).value.columnName
  {
    var init := rows[..|rows| - 1];
    NameSeen(init, ignore);
    NameSeen(rows, ignore);
    if n in IndexNames(init, ignore) {
      IndexesHaveColumns(init, ignore, n);
    }
  }

  /**
   * A primary-key row and two rows of one index: the primary key is dropped
   * and the index collects both columns in order.
   */
  lemma IndexScenario()
    ensures var rows := [IndexRow(false, Some("PRIMARY"), "ID"), IndexRow(false, Some("IDX1"), "B"), IndexRow(true, Some("IDX1"), "C")];
            IndexNames(rows, _ => false) == ["IDX1"]
            && IndexNamed(rows, _ => false, "IDX1") == Index("IDX1", true, ["B", "C"])
  {
    var ignore: string -> bool := _ => false;
    var rows := [IndexRow(false, Some("PRIMARY"), "ID"), IndexRow(false, Some("IDX1"), "B"), IndexRow(true, Some("IDX1"), "C")];
    assert rows[..1][..0] == [] && rows[..2][..1] == rows[..1] && rows[..3][..2] == rows[..2] && rows[..3] == rows;
    assert IndexNames(rows[..1], ignore) == [];
    assert IndexNames(rows[..2], ignore) == ["IDX1"];
    assert FirstRowOf(rows[..1], ignore, "IDX1") == None;
    assert FirstRowOf(rows[..2], ignore, "IDX1") == Some(rows[1]);
    assert ColumnsOf(rows[..1], ignore, "IDX1") == [];
    assert ColumnsOf(rows[..2], ignore, "IDX1") == ["B"];
  }
}
