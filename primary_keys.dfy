/**
 * The primary-key resolver: the (key sequence, column name) rows of one
 * table's key enumeration, sorted ascending by key sequence with a stable
 * sort, projected to the column names.
 */
module PrimaryKeys {
  import opened MetaData

  predicate SortedBySequence(s: seq<PrimaryKeyRow>) {
    forall i, j :: 0 <= i < j < |s| ==> s[i].keySequence <= s[j].keySequence
  }

  lemma {:induction false} TailSorted(s: seq<PrimaryKeyRow>)
    requires s != [] && SortedBySequence(s)
    ensures SortedBySequence(s[1..])
  {
    forall p, q | 0 <= p < q < |s[1..]| ensures s[1..][p].keySequence <= s[1..][q].keySequence {
      assert s[1..][p] == s[p + 1] && s[1..][q] == s[q + 1];
    }
  }

  /** Places `x` before the first row whose sequence is not below its own. */
  function InsertBySequence(x: PrimaryKeyRow, s: seq<PrimaryKeyRow>): (r: seq<PrimaryKeyRow>)
    ensures |r| == |s| + 1
  {
    if s == [] || x.keySequence <= s[0].keySequence then [x] + s
    else [s[0]] + InsertBySequence(x, s[1..])
  }

  lemma {:induction false} InsertPermutes(x: PrimaryKeyRow, s: seq<PrimaryKeyRow>)
    ensures multiset(InsertBySequence(x, s)) == multiset(s) + multiset{x}
  {
    if s != [] && x.keySequence > s[0].keySequence {
      InsertPermutes(x, s[1..]);
      assert s == [s[0]] + s[1..];
    }
  }

  lemma {:induction false} InsertKeepsSorted(x: PrimaryKeyRow, s: seq<PrimaryKeyRow>)
    requires SortedBySequence(s)
    ensures SortedBySequence(InsertBySequence(x, s))
    ensures InsertBySequence(x, s)[0] == if s == [] || x.keySequence <= s[0].keySequence then x else s[0]
  {
    if s == [] || x.keySequence <= s[0].keySequence {
      var r := [x] + s;
      forall i, j | 0 <= i < j < |r| ensures r[i].keySequence <= r[j].keySequence {
        if i > 0 {
          assert r[i] == s[i - 1] && r[j] == s[j - 1];
        } else {
          assert r[j] == s[j - 1];
          assert s[0].keySequence <= s[j - 1].keySequence;
        }
      }
    } else {
      TailSorted(s);
      InsertKeepsSorted(x, s[1..]);
      var rest := InsertBySequence(x, s[1..]);
      assert s[0].keySequence <= rest[0].keySequence by {
        if s[1..] != [] {
          assert s[1..][0] == s[1];
        }
      }
      var r := [s[0]] + rest;
      forall i, j | 0 <= i < j < |r| ensures r[i].keySequence <= r[j].keySequence {
        assert r[j] == rest[j - 1];
        if i > 0 {
          assert r[i] == rest[i - 1];
        } else if j > 1 {
          assert rest[0].keySequence <= rest[j - 1].keySequence;
        }
      }
    }
  }

  /** A stable insertion sort ascending by key sequence. */
  function SortBySequence(rows: seq<PrimaryKeyRow>): (r: seq<PrimaryKeyRow>)
    ensures multiset(r) == multiset(rows)
    ensures SortedBySequence(r)
  {
    if rows == [] then []
    else
      assert rows == [rows[0]] + rows[1..];
      InsertKeepsSorted(rows[0], SortBySequence(rows[1..]));
      InsertPermutes(rows[0], SortBySequence(rows[1..]));
      InsertBySequence(rows[0], SortBySequence(rows[1..]))
  }

  function ColumnNames(rows: seq<PrimaryKeyRow>): (r: seq<string>)
    ensures |r| == |rows| && forall i :: 0 <= i < |rows| ==> r[i] == rows[i].columnName
  {
    seq(|rows|, i requires 0 <= i < |rows| => rows[i].columnName)
  }

  function NameOrNull(name: Option<string>): string {
    match name
    case Some(n) => n
    case None => "null"
  }

  /**
   * getPrimaryKeys: a failed key query is an SQL failure naming the table;
   * otherwise the result is the column names of a permutation of the rows
   * whose key sequences ascend, one name per row.
   */
  function GetPrimaryKeys(tableName: Option<string>, q: Query<PrimaryKeyRow>): (r: Result<seq<string>>)
    ensures r.Ok? <==> q.Rows?
    ensures q.Failed? ==> r == Err(SqlFailure("Error reading primary keys for table [" + NameOrNull(tableName) + "]"))
    ensures q.Rows? ==>
              && |r.value| == |q.rows|
              && exists p :: multiset(p) == multiset(q.rows) && SortedBySequence(p) && r.value == ColumnNames(p)
  {
    match q
    case Failed => Err(SqlFailure("Error reading primary keys for table [" + NameOrNull(tableName) + "]"))
    case Rows(rows) =>
      var sorted := SortBySequence(rows);
      assert |sorted| == |multiset(sorted)| == |multiset(rows)| == |rows|;
      Ok(ColumnNames(sorted))
  }

  /** The rows with a given key sequence, in order. */
  function WithSequence(s: seq<PrimaryKeyRow>, v: int): seq<PrimaryKeyRow> {
    if s == [] then []
    else (if s[0].keySequence == v then [s[0]] else []) + WithSequence(s[1..], v)
  }

  lemma {:induction false} InsertIsStable(x: PrimaryKeyRow, s: seq<PrimaryKeyRow>, v: int)
    requires SortedBySequence(s)
    ensures WithSequence(InsertBySequence(x, s), v) == (if x.keySequence == v then [x] else []) + WithSequence(s, v)
  {
    var xs := if x.keySequence == v then [x] else [];
    if s == [] || x.keySequence <= s[0].keySequence {
      var r := [x] + s;
      assert r[0] == x && r[1..] == s;
      assert WithSequence(r, v) == xs + WithSequence(s, v);
    } else {
      TailSorted(s);
      InsertIsStable(x, s[1..], v);
      var rest := InsertBySequence(x, s[1..]);
      var r := [s[0]] + rest;
      var hs := if s[0].keySequence == v then [s[0]] else [];
      assert r[0] == s[0] && r[1..] == rest;
      calc {
        WithSequence(r, v);
        hs + WithSequence(rest, v);
        hs + (xs + WithSequence(s[1..], v));
        xs + (hs + WithSequence(s[1..], v));
        xs + WithSequence(s, v);
      }
    }
  }

  /**
   * The sort is stable: the rows that share a key sequence keep their
   * relative order, so ties are resolved by row order.
   */
  lemma {:induction false} SortIsStable(rows: seq<PrimaryKeyRow>, v: int)
    ensures WithSequence(SortBySequence(rows), v) == WithSequence(rows, v)
  {
    if rows != [] {
      SortIsStable(rows[1..], v);
      InsertIsStable(rows[0], SortBySequence(rows[1..]), v);
    }
  }

  /** The composite-key scenario: (A, 2) and (B, 1) resolve to [B, A]. */
  lemma CompositeKeyScenario()
    ensures GetPrimaryKeys(Some("T"), Rows([PrimaryKeyRow(2, "A"), PrimaryKeyRow(1, "B")])) == Ok(["B", "A"])
  {
    var sorted := SortBySequence([PrimaryKeyRow(2, "A"), PrimaryKeyRow(1, "B")]);
    assert [PrimaryKeyRow(2, "A"), PrimaryKeyRow(1, "B")][1..] == [PrimaryKeyRow(1, "B")];
    assert [PrimaryKeyRow(1, "B")][1..] == [];
    assert SortBySequence([PrimaryKeyRow(1, "B")]) == InsertBySequence(PrimaryKeyRow(1, "B"), []) == [PrimaryKeyRow(1, "B")];
    assert InsertBySequence(PrimaryKeyRow(2, "A"), [PrimaryKeyRow(1, "B")])
        == [PrimaryKeyRow(1, "B")] + InsertBySequence(PrimaryKeyRow(2, "A"), []);
    assert sorted == [PrimaryKeyRow(1, "B"), PrimaryKeyRow(2, "A")];
    var names := ColumnNames(sorted);
    assert |names| == 2 && names[0] == "B" && names[1] == "A";
    assert names == ["B", "A"];
  }
}
