/**
 * Reading one table's columns: the columns whose names are primary-key names
 * are flagged as key columns, and then the key slots are refilled so that the
 * key columns appear in key order while every other column keeps its place.
 */
module ColumnOrder {
  import opened MetaData

  /** The number of key-flagged columns. */
  function KeyCount(columns: seq<Column>): (n: nat)
    ensures n <= |columns|
  {
    if columns == [] then 0
    else KeyCount(columns[..|columns| - 1]) + (if columns[|columns| - 1].primaryKey then 1 else 0)
  }

  /** The names of the key-flagged columns, in column order. */
  function KeyColumnNames(columns: seq<Column>): (r: seq<string>)
    ensures |r| == KeyCount(columns)
  {
    if columns == [] then []
    else
      var last := columns[|columns| - 1];
      KeyColumnNames(columns[..|columns| - 1]) + (if last.primaryKey then [last.name] else [])
  }

  function NamesOf(columns: seq<Column>): (r: seq<string>)
    ensures |r| == |columns| && forall i :: 0 <= i < |columns| ==> r[i] == columns[i].name
  {
    seq(|columns|, i requires 0 <= i < |columns| => columns[i].name)
  }

  /** No two columns share a name. */
  predicate UniqueNames(columns: seq<Column>) {
    forall i, j :: 0 <= i < j < |columns| ==> columns[i].name != columns[j].name
  }

  /**
   * The immutable index of columns by exact name; building it fails when two
   * columns share a name.
   */
  function UniqueIndex(columns: seq<Column>): (r: Result<map<string, Column>>)
    ensures r.Ok? <==> UniqueNames(columns)
    ensures r.Err? ==> r.error == DuplicateKey
    ensures r.Ok? ==> forall i :: 0 <= i < |columns| ==> columns[i].name in r.value && r.value[columns[i].name] == columns[i]
    ensures r.Ok? ==> forall n :: n in r.value ==> r.value[n] in columns && r.value[n].name == n
  {
    if UniqueNames(columns) then Ok(map c | c in columns :: c.name := c) else Err(DuplicateKey)
  }

  /**
   * The reordering pass over `columns`: a non-key column is kept; the k-th
   * key slot receives the column named by the k-th key name. There being no
   * k-th key name, or no column of that name, fails.
   */
  function Reorder(primaryKeys: seq<string>, byName: map<string, Column>, columns: seq<Column>): (r: Result<seq<Column>>)
    ensures r.Err? ==> r.error.PrimaryKeyIndexOutOfBounds? || r.error.MissingPrimaryKeyColumn?
  {
    if columns == [] then Ok([])
    else
      var init := columns[..|columns| - 1];
      var column := columns[|columns| - 1];
      match Reorder(primaryKeys, byName, init)
      case Err(e) => Err(e)
      case Ok(done) =>
        if !column.primaryKey then Ok(done + [column])
        else
          var k := KeyCount(init);
          if k >= |primaryKeys| then Err(PrimaryKeyIndexOutOfBounds(k))
          else if primaryKeys[k] !in byName then Err(MissingPrimaryKeyColumn(primaryKeys[k]))
          else Ok(done + [byName[primaryKeys[k]]])
  }

  /** applyPrimaryKeyOrder, as a function of its inputs. */
  function PrimaryKeyOrder(primaryKeys: seq<string>, columns: seq<Column>): Result<seq<Column>> {
    match UniqueIndex(columns)
    case Err(e) => Err(e)
    case Ok(byName) => Reorder(primaryKeys, byName, columns)
  }

  /** The i-th column is a key slot the pass cannot fill. */
  predicate BadSlot(primaryKeys: seq<string>, byName: map<string, Column>, columns: seq<Column>, i: int)
    requires 0 <= i < |columns|
  {
    columns[i].primaryKey
    && (KeyCount(columns[..i]) >= |primaryKeys| || primaryKeys[KeyCount(columns[..i])] !in byName)
  }

  /** The i-th column is a key slot with no key name, or whose key name names no column. */
  predicate UnfillableSlot(primaryKeys: seq<string>, columns: seq<Column>, i: int)
    requires 0 <= i < |columns|
  {
    columns[i].primaryKey
    && (KeyCount(columns[..i]) >= |primaryKeys| || primaryKeys[KeyCount(columns[..i])] !in NamesOf(columns))
  }

  lemma {:induction false} ReorderErrorPersists(primaryKeys: seq<string>, byName: map<string, Column>, columns: seq<Column>, n: nat)
    requires n <= |columns|
    requires Reorder(primaryKeys, byName, columns[..n]).Err?
    ensures Reorder(primaryKeys, byName, columns) == Reorder(primaryKeys, byName, columns[..n])
    decreases |columns| - n
  {
    if n == |columns| {
      assert columns[..n] == columns;
    } else {
      var init := columns[..|columns| - 1];
      assert init[..n] == columns[..n];
      ReorderErrorPersists(primaryKeys, byName, init, n);
    }
  }

  /** The pass fails exactly when some key slot cannot be filled. */
  lemma {:induction false} ReorderFailsAtBadSlot(primaryKeys: seq<string>, byName: map<string, Column>, columns: seq<Column>)
    ensures Reorder(primaryKeys, byName, columns).Err?
            <==> exists i :: 0 <= i < |columns| && BadSlot(primaryKeys, byName, columns, i)
  {
    if columns != [] {
      var init := columns[..|columns| - 1];
      var last := |columns| - 1;
      ReorderFailsAtBadSlot(primaryKeys, byName, init);
      forall i | 0 <= i < |init|
        ensures BadSlot(primaryKeys, byName, init, i) == BadSlot(primaryKeys, byName, columns, i)
      {
        assert init[..i] == columns[..i];
      }
      assert columns[..last] == init;
      if Reorder(primaryKeys, byName, init).Err? {
        var i :| 0 <= i < |init| && BadSlot(primaryKeys, byName, init, i);
        assert BadSlot(primaryKeys, byName, columns, i);
        assert Reorder(primaryKeys, byName, columns).Err?;
      } else {
        assert !exists i :: 0 <= i < |init| && BadSlot(primaryKeys, byName, init, i);
        assert (exists i :: 0 <= i < |columns| && BadSlot(primaryKeys, byName, columns, i))
               <==> BadSlot(primaryKeys, byName, columns, last);
      }
    }
  }

  /**
   * Slot i after a successful pass: a non-key column is in place, and the
   * k-th key slot holds the column named by the k-th key name.
   */
  predicate SlotFilled(primaryKeys: seq<string>, byName: map<string, Column>, columns: seq<Column>, r: seq<Column>, i: int)
    requires 0 <= i < |columns| == |r|
  {
    if !columns[i].primaryKey then r[i] == columns[i]
    else
      && KeyCount(columns[..i]) < |primaryKeys|
      && primaryKeys[KeyCount(columns[..i])] in byName
      && r[i] == byName[primaryKeys[KeyCount(columns[..i])]]
  }

  /** A successful pass keeps the length and fills every slot as `SlotFilled` says. */
  lemma {:induction false} ReorderShape(primaryKeys: seq<string>, byName: map<string, Column>, columns: seq<Column>, r: seq<Column>)
    requires Reorder(primaryKeys, byName, columns) == Ok(r)
    ensures |r| == |columns|
    ensures forall i :: 0 <= i < |columns| ==> SlotFilled(primaryKeys, byName, columns, r, i)
  {
    if columns != [] {
      var last := |columns| - 1;
      var init := columns[..last];
      var done := Reorder(primaryKeys, byName, init).value;
      ReorderShape(primaryKeys, byName, init, done);
      assert |r| == |done| + 1 && r[..last] == done;
      forall i | 0 <= i < |columns| ensures SlotFilled(primaryKeys, byName, columns, r, i) {
        if i < last {
          assert SlotFilled(primaryKeys, byName, init, done, i);
          assert init[..i] == columns[..i] && init[i] == columns[i] && r[..last][i] == r[i];
        }
      }
    }
  }

  /** One step of the pass: the outcome on the first i + 1 columns from the outcome on the first i. */
  lemma ReorderStep(primaryKeys: seq<string>, byName: map<string, Column>, columns: seq<Column>, i: nat, done: seq<Column>)
    requires i < |columns| && Reorder(primaryKeys, byName, columns[..i]) == Ok(done)
    ensures KeyCount(columns[..i + 1]) == KeyCount(columns[..i]) + if columns[i].primaryKey then 1 else 0
    ensures var k := KeyCount(columns[..i]);
            Reorder(primaryKeys, byName, columns[..i + 1]) ==
              if !columns[i].primaryKey then Ok(done + [columns[i]])
              else if k >= |primaryKeys| then Err(PrimaryKeyIndexOutOfBounds(k))
              else if primaryKeys[k] !in byName then Err(MissingPrimaryKeyColumn(primaryKeys[k]))
              else Ok(done + [byName[primaryKeys[k]]])
  {
    assert columns[..i + 1][..i] == columns[..i];
  }

  /**
   * applyPrimaryKeyOrder: index the columns by name, then walk them with a
   * running key-slot counter, refilling each key slot from the index.
   */
  method ApplyPrimaryKeyOrder(primaryKeys: seq<string>, columns: seq<Column>) returns (r: Result<seq<Column>>)
    ensures r == PrimaryKeyOrder(primaryKeys, columns)
  {
    var index := UniqueIndex(columns);
    if index.Err? {
      return Err(DuplicateKey);
    }
    var byName := index.value;
    var reordered: seq<Column> := [];
    var primaryKeyIndex := 0;
    for i := 0 to |columns|
      invariant Reorder(primaryKeys, byName, columns[..i]) == Ok(reordered)
      invariant primaryKeyIndex == KeyCount(columns[..i])
    {
      ReorderStep(primaryKeys, byName, columns, i, reordered);
      var column := columns[i];
      if column.primaryKey {
        if primaryKeyIndex >= |primaryKeys| {
          ReorderErrorPersists(primaryKeys, byName, columns, i + 1);
          return Err(PrimaryKeyIndexOutOfBounds(primaryKeyIndex));
        }
        var pkName := primaryKeys[primaryKeyIndex];
        if pkName !in byName {
          ReorderErrorPersists(primaryKeys, byName, columns, i + 1);
          return Err(MissingPrimaryKeyColumn(pkName));
        }
        reordered := reordered + [byName[pkName]];
        primaryKeyIndex := primaryKeyIndex + 1;
      } else {
        reordered := reordered + [column];
      }
    }
    assert columns[..|columns|] == columns;
    r := Ok(reordered);
  }

  /**
   * applyPrimaryKeyOrder fails exactly when two columns share a name or some
   * key slot has no key name or a key name that names no column.
   */
  lemma PrimaryKeyOrderFails(primaryKeys: seq<string>, columns: seq<Column>)
    ensures PrimaryKeyOrder(primaryKeys, columns).Err?
            <==> !UniqueNames(columns) || exists i :: 0 <= i < |columns| && UnfillableSlot(primaryKeys, columns, i)
  {
    if UniqueNames(columns) {
      var byName := UniqueIndex(columns).value;
      assert forall n :: n in byName <==> n in NamesOf(columns);
      ReorderFailsAtBadSlot(primaryKeys, byName, columns);
      assert forall i :: 0 <= i < |columns| ==> BadSlot(primaryKeys, byName, columns, i) == UnfillableSlot(primaryKeys, columns, i);
    }
  }

  /**
   * A successful applyPrimaryKeyOrder keeps the length and every non-key
   * column in place, and fills the k-th key slot with the column named by the
   * k-th key name.
   */
  lemma PrimaryKeyOrderShape(primaryKeys: seq<string>, columns: seq<Column>, r: seq<Column>)
    requires PrimaryKeyOrder(primaryKeys, columns) == Ok(r)
    ensures |r| == |columns|
    ensures forall i :: 0 <= i < |columns| && !columns[i].primaryKey ==> r[i] == columns[i]
    ensures forall i :: 0 <= i < |columns| && columns[i].primaryKey ==>
              && KeyCount(columns[..i]) < |primaryKeys|
              && r[i] in columns
              && r[i].name == primaryKeys[KeyCount(columns[..i])]
  {
    var byName := UniqueIndex(columns).value;
    ReorderShape(primaryKeys, byName, columns, r);
    forall i | 0 <= i < |columns| ensures !columns[i].primaryKey ==> r[i] == columns[i]
      ensures columns[i].primaryKey ==>
              && KeyCount(columns[..i]) < |primaryKeys|
              && r[i] in columns
              && r[i].name == primaryKeys[KeyCount(columns[..i])]
    {
      assert SlotFilled(primaryKeys, byName, columns, r, i);
    }
  }

  /** The columns with every column named by a key name flagged as a key column. */
  function FlagPrimaryKeys(columns: seq<Column>, primaryKeys: seq<string>): (r: seq<Column>)
    ensures |r| == |columns|
    ensures forall i :: 0 <= i < |columns| ==>
              && r[i] == columns[i].(primaryKey := r[i].primaryKey)
              && (r[i].primaryKey <==> columns[i].primaryKey || columns[i].name in primaryKeys)
  {
    seq(|columns|, i requires 0 <= i < |columns| =>
      if columns[i].name in primaryKeys then columns[i].(primaryKey := true) else columns[i])
  }

  /**
   * readColumns exactly as written: flag, then reorder. A success has one
   * column per column read; a failure is a repeated column name, a key slot
   * past the end of the key names, or a key name with no column.
   */
  function ReadColumnsAsWritten(columns: seq<Column>, primaryKeys: seq<string>): (r: Result<seq<Column>>)
    ensures r.Ok? ==> |r.value| == |columns|
    ensures r.Err? ==> r.error == DuplicateKey || r.error.PrimaryKeyIndexOutOfBounds? || r.error.MissingPrimaryKeyColumn?
  {
    var f := FlagPrimaryKeys(columns, primaryKeys);
    var r := PrimaryKeyOrder(primaryKeys, f);
    if r.Ok? then
      ReorderShape(primaryKeys, UniqueIndex(f).value, f, r.value);
      r
    else r
  }

  /** The first key name that names no column, if any. */
  function MissingPrimaryKey(primaryKeys: seq<string>, columns: seq<Column>): (r: Option<string>)
    ensures r.None? <==> forall n :: n in primaryKeys ==> n in NamesOf(columns)
    ensures r.Some? ==> r.value in primaryKeys && r.value !in NamesOf(columns)
  {
    if primaryKeys == [] then None
    else if primaryKeys[0] !in NamesOf(columns) then Some(primaryKeys[0])
    else MissingPrimaryKey(primaryKeys[1..], columns)
  }

  /**
   * The corrected readColumns: every key name is required to name a column,
   * and a key name that names none fails, whatever its position among the
   * key names.
   */
  function ReadColumnsSpec(columns: seq<Column>, primaryKeys: seq<string>): Result<seq<Column>> {
    match MissingPrimaryKey(primaryKeys, columns)
    case Some(n) => Err(MissingPrimaryKeyColumn(n))
    case None => ReadColumnsAsWritten(columns, primaryKeys)
  }

  /**
   * readColumns: flag every column named by a key name, then reorder. A key
   * name is looked at only when a key slot asks for it.
   */
  method ReadColumns(columns: seq<Column>, primaryKeys: seq<string>) returns (r: Result<seq<Column>>)
    ensures r == ReadColumnsAsWritten(columns, primaryKeys)
  {
    var flagged: seq<Column> := [];
    for i := 0 to |columns|
      invariant |flagged| == i
      invariant forall j :: 0 <= j < i ==> flagged[j] == FlagPrimaryKeys(columns, primaryKeys)[j]
    {
      var column := columns[i];
      flagged := flagged + [if column.name in primaryKeys then column.(primaryKey := true) else column];
    }
    assert flagged == FlagPrimaryKeys(columns, primaryKeys);
    r := ApplyPrimaryKeyOrder(primaryKeys, flagged);
  }

  /** No column arrives already flagged: catalog columns never are. */
  predicate Unflagged(columns: seq<Column>) {
    forall i :: 0 <= i < |columns| ==> !columns[i].primaryKey
  }

  lemma FlagFacts(columns: seq<Column>, primaryKeys: seq<string>)
    requires Unflagged(columns)
    ensures var f := FlagPrimaryKeys(columns, primaryKeys);
      && NamesOf(f) == NamesOf(columns)
      && (UniqueNames(f) <==> UniqueNames(columns))
      && (forall i :: 0 <= i < |f| ==> (f[i].primaryKey <==> f[i].name in primaryKeys))
      && (forall i :: 0 <= i < |f| && !f[i].primaryKey ==> f[i] == columns[i])
  {
  }

  lemma {:induction false} KeyCountMonotone(columns: seq<Column>, n: nat)
    requires n <= |columns|
    ensures KeyCount(columns[..n]) <= KeyCount(columns)
    decreases |columns|
  {
    if n < |columns| {
      var init := columns[..|columns| - 1];
      assert init[..n] == columns[..n];
      KeyCountMonotone(init, n);
    } else {
      assert columns[..n] == columns;
    }
  }

  lemma {:induction false} KeyColumnNamesMembers(columns: seq<Column>, n: string)
    ensures n in KeyColumnNames(columns) <==> exists i :: 0 <= i < |columns| && columns[i].primaryKey && columns[i].name == n
  {
    if columns != [] {
      var init := columns[..|columns| - 1];
      KeyColumnNamesMembers(init, n);
      if exists i :: 0 <= i < |columns| && columns[i].primaryKey && columns[i].name == n {
        var i :| 0 <= i < |columns| && columns[i].primaryKey && columns[i].name == n;
        if i < |init| {
          assert init[i] == columns[i];
        }
      }
    }
  }

  lemma {:induction false} KeyColumnNamesDistinct(columns: seq<Column>)
    requires UniqueNames(columns)
    ensures Distinct(KeyColumnNames(columns))
  {
    if columns != [] {
      var init := columns[..|columns| - 1];
      var last := columns[|columns| - 1];
      assert UniqueNames(init) by {
        forall i, j | 0 <= i < j < |init| ensures init[i].name != init[j].name {
          assert init[i] == columns[i] && init[j] == columns[j];
        }
      }
      KeyColumnNamesDistinct(init);
      KeyColumnNamesMembers(init, last.name);
      forall i | 0 <= i < |init| ensures init[i].name != last.name {
        assert init[i] == columns[i];
      }
    }
  }

  lemma ElementsOfCons(s: seq<string>)
    requires s != []
    ensures (set x | x in s) == {s[0]} + (set x | x in s[1..])
  {
    assert s == [s[0]] + s[1..];
  }

  lemma DistinctTail(s: seq<string>)
    requires s != [] && Distinct(s)
    ensures Distinct(s[1..]) && s[0] !in s[1..]
  {
    var tail := s[1..];
    forall i, j | 0 <= i < j < |tail| ensures tail[i] != tail[j] {
      assert tail[i] == s[i + 1] && tail[j] == s[j + 1];
    }
    forall j | 0 <= j < |tail| ensures tail[j] != s[0] {
      assert tail[j] == s[j + 1];
    }
  }

  lemma {:induction false} DistinctCardinality(s: seq<string>)
    requires Distinct(s)
    ensures |set x | x in s| == |s|
  {
    if s != [] {
      DistinctTail(s);
      DistinctCardinality(s[1..]);
      ElementsOfCons(s);
    }
  }

  lemma {:induction false} CardinalityAtMost(s: seq<string>)
    ensures |set x | x in s| <= |s|
  {
    if s != [] {
      CardinalityAtMost(s[1..]);
      ElementsOfCons(s);
    }
  }

  lemma SubsetCardinality(a: set<string>, b: set<string>)
    requires a <= b
    ensures |a| <= |b|
  {
    assert b == a + (b - a);
  }

  /**
   * The counting argument: with unique column names, the flagged columns
   * number at most the key names; when every key name also names a column and
   * the key names are distinct, they number exactly the key names.
   */
  lemma KeyCountOfFlagged(columns: seq<Column>, primaryKeys: seq<string>)
    requires Unflagged(columns) && UniqueNames(columns)
    ensures KeyCount(FlagPrimaryKeys(columns, primaryKeys)) <= |primaryKeys|
    ensures MissingPrimaryKey(primaryKeys, columns).None? && Distinct(primaryKeys)
            ==> KeyCount(FlagPrimaryKeys(columns, primaryKeys)) == |primaryKeys|
  {
    var f := FlagPrimaryKeys(columns, primaryKeys);
    FlagFacts(columns, primaryKeys);
    var names := KeyColumnNames(f);
    KeyColumnNamesDistinct(f);
    DistinctCardinality(names);
    var flaggedSet := set x | x in names;
    var keySet := set x | x in primaryKeys;
    assert flaggedSet <= keySet by {
      forall n | n in flaggedSet ensures n in keySet {
        KeyColumnNamesMembers(f, n);
      }
    }
    SubsetCardinality(flaggedSet, keySet);
    CardinalityAtMost(primaryKeys);
    if MissingPrimaryKey(primaryKeys, columns).None? && Distinct(primaryKeys) {
      assert keySet <= flaggedSet by {
        forall n | n in keySet ensures n in flaggedSet {
          assert n in NamesOf(f);
          var i :| 0 <= i < |f| && NamesOf(f)[i] == n;
          KeyColumnNamesMembers(f, n);
        }
      }
      SubsetCardinality(keySet, flaggedSet);
      DistinctCardinality(primaryKeys);
    }
  }

  lemma NoBadSlotWhenKeysPresent(primaryKeys: seq<string>, byName: map<string, Column>, f: seq<Column>)
    requires KeyCount(f) <= |primaryKeys|
    requires forall n :: n in primaryKeys ==> n in byName
    ensures forall i :: 0 <= i < |f| ==> !BadSlot(primaryKeys, byName, f, i)
  {
    forall i | 0 <= i < |f| ensures !BadSlot(primaryKeys, byName, f, i) {
      if f[i].primaryKey {
        var k := KeyCount(f[..i]);
        assert f[..i + 1][..i] == f[..i] && f[..i + 1][i] == f[i];
        assert KeyCount(f[..i + 1]) == k + 1;
        KeyCountMonotone(f, i + 1);
        assert primaryKeys[k] in primaryKeys;
      }
    }
  }

  lemma FlaggedIndexHasEveryKey(columns: seq<Column>, primaryKeys: seq<string>)
    requires Unflagged(columns) && UniqueNames(columns)
    requires MissingPrimaryKey(primaryKeys, columns).None?
    ensures UniqueIndex(FlagPrimaryKeys(columns, primaryKeys)).Ok?
    ensures forall n :: n in primaryKeys ==> n in UniqueIndex(FlagPrimaryKeys(columns, primaryKeys)).value
  {
    var f := FlagPrimaryKeys(columns, primaryKeys);
    FlagFacts(columns, primaryKeys);
    var byName := UniqueIndex(f).value;
    forall n | n in primaryKeys ensures n in byName {
      assert n in NamesOf(f);
      var j :| 0 <= j < |f| && NamesOf(f)[j] == n;
    }
  }

  /**
   * readColumns on catalog columns (unflagged, uniquely named) fails exactly
   * when some key name names no column.
   */
  lemma ReadColumnsSucceeds(columns: seq<Column>, primaryKeys: seq<string>)
    requires Unflagged(columns) && UniqueNames(columns)
    ensures ReadColumnsSpec(columns, primaryKeys).Ok? <==> MissingPrimaryKey(primaryKeys, columns).None?
  {
    if MissingPrimaryKey(primaryKeys, columns).None? {
      var f := FlagPrimaryKeys(columns, primaryKeys);
      FlaggedIndexHasEveryKey(columns, primaryKeys);
      var byName := UniqueIndex(f).value;
      KeyCountOfFlagged(columns, primaryKeys);
      NoBadSlotWhenKeysPresent(primaryKeys, byName, f);
      ReorderFailsAtBadSlot(primaryKeys, byName, f);
    }
  }

  /** Refilling a key slot with a flagged column keeps every slot's flag. */
  lemma SlotsKeepFlags(columns: seq<Column>, primaryKeys: seq<string>, r: seq<Column>)
    requires Unflagged(columns)
    requires PrimaryKeyOrder(primaryKeys, FlagPrimaryKeys(columns, primaryKeys)) == Ok(r)
    ensures |r| == |columns|
    ensures forall i :: 0 <= i < |columns| ==> r[i].primaryKey == FlagPrimaryKeys(columns, primaryKeys)[i].primaryKey
  {
    var f := FlagPrimaryKeys(columns, primaryKeys);
    FlagFacts(columns, primaryKeys);
    PrimaryKeyOrderShape(primaryKeys, f, r);
    forall i | 0 <= i < |f| ensures r[i].primaryKey == f[i].primaryKey {
      if f[i].primaryKey {
        var j :| 0 <= j < |f| && f[j] == r[i];
        assert f[j].name in primaryKeys;
      } else {
        assert r[i] == f[i];
      }
    }
  }

  /** Slot i of `r` has the flag of slot i of `f`, and a key slot holds the column of its key name. */
  predicate SlotFollowsKey(f: seq<Column>, r: seq<Column>, primaryKeys: seq<string>, i: int)
    requires 0 <= i < |f| == |r|
  {
    && r[i].primaryKey == f[i].primaryKey
    && (f[i].primaryKey ==> KeyCount(f[..i]) < |primaryKeys| && r[i].name == primaryKeys[KeyCount(f[..i])])
  }

  lemma KeyPrefixStep(columns: seq<Column>, n: nat)
    requires 0 < n <= |columns|
    ensures KeyCount(columns[..n]) == KeyCount(columns[..n - 1]) + if columns[n - 1].primaryKey then 1 else 0
    ensures KeyColumnNames(columns[..n])
            == KeyColumnNames(columns[..n - 1]) + if columns[n - 1].primaryKey then [columns[n - 1].name] else []
  {
    assert columns[..n][..n - 1] == columns[..n - 1] && columns[..n][n - 1] == columns[n - 1];
  }

  lemma {:induction false} KeyNamesFollowSlots(f: seq<Column>, r: seq<Column>, primaryKeys: seq<string>, n: nat)
    requires |r| == |f| && n <= |f|
    requires forall i :: 0 <= i < |f| ==> SlotFollowsKey(f, r, primaryKeys, i)
    ensures KeyCount(f[..n]) <= |primaryKeys|
    ensures KeyColumnNames(r[..n]) == primaryKeys[..KeyCount(f[..n])]
  {
    if n > 0 {
      KeyNamesFollowSlots(f, r, primaryKeys, n - 1);
      KeyPrefixStep(f, n);
      KeyPrefixStep(r, n);
      var k := KeyCount(f[..n - 1]);
      assert SlotFollowsKey(f, r, primaryKeys, n - 1);
      if f[n - 1].primaryKey {
        assert primaryKeys[..k + 1] == primaryKeys[..k] + [primaryKeys[k]];
      }
    } else {
      assert f[..0] == [] && r[..0] == [];
    }
  }

  lemma KeepsOtherColumns(columns: seq<Column>, primaryKeys: seq<string>, r: seq<Column>)
    requires Unflagged(columns)
    requires PrimaryKeyOrder(primaryKeys, FlagPrimaryKeys(columns, primaryKeys)) == Ok(r)
    ensures |r| == |columns|
    ensures forall i :: 0 <= i < |columns| && columns[i].name !in primaryKeys ==> r[i] == columns[i]
  {
    var f := FlagPrimaryKeys(columns, primaryKeys);
    FlagFacts(columns, primaryKeys);
    PrimaryKeyOrderShape(primaryKeys, f, r);
  }

  lemma ReorderedKeyNames(f: seq<Column>, primaryKeys: seq<string>, r: seq<Column>)
    requires PrimaryKeyOrder(primaryKeys, f) == Ok(r)
    requires |r| == |f| && forall i :: 0 <= i < |f| ==> r[i].primaryKey == f[i].primaryKey
    ensures KeyCount(f) <= |primaryKeys|
    ensures KeyColumnNames(r) == primaryKeys[..KeyCount(f)]
  {
    PrimaryKeyOrderShape(primaryKeys, f, r);
    forall i | 0 <= i < |f| ensures SlotFollowsKey(f, r, primaryKeys, i) {
    }
    KeyNamesFollowSlots(f, r, primaryKeys, |f|);
    assert f[..|f|] == f && r[..|r|] == r;
  }

  lemma FlaggedKeyNames(columns: seq<Column>, primaryKeys: seq<string>, r: seq<Column>)
    requires Unflagged(columns)
    requires PrimaryKeyOrder(primaryKeys, FlagPrimaryKeys(columns, primaryKeys)) == Ok(r)
    ensures KeyCount(FlagPrimaryKeys(columns, primaryKeys)) <= |primaryKeys|
    ensures KeyColumnNames(r) == primaryKeys[..KeyCount(FlagPrimaryKeys(columns, primaryKeys))]
  {
    SlotsKeepFlags(columns, primaryKeys, r);
    ReorderedKeyNames(FlagPrimaryKeys(columns, primaryKeys), primaryKeys, r);
  }

  lemma KeyColumnsInKeyOrder(columns: seq<Column>, primaryKeys: seq<string>, r: seq<Column>)
    requires Unflagged(columns) && UniqueNames(columns) && Distinct(primaryKeys)
    requires MissingPrimaryKey(primaryKeys, columns).None?
    requires PrimaryKeyOrder(primaryKeys, FlagPrimaryKeys(columns, primaryKeys)) == Ok(r)
    ensures KeyColumnNames(r) == primaryKeys
  {
    KeyCountOfFlagged(columns, primaryKeys);
    FlaggedKeyNames(columns, primaryKeys, r);
    assert primaryKeys[..|primaryKeys|] == primaryKeys;
  }

  /**
   * On catalog columns, a successful readColumns keeps the number of columns,
   * leaves every column that is not a key column where and as it was, and
   * lists the key columns in key order: one per flagged column, taken from
   * the front of the key names, and all of the key names when they are
   * distinct and each names a column.
   */
  lemma ReadColumnsKeyOrder(columns: seq<Column>, primaryKeys: seq<string>, r: seq<Column>)
    requires Unflagged(columns) && UniqueNames(columns)
    requires ReadColumnsAsWritten(columns, primaryKeys) == Ok(r)
    ensures |r| == |columns|
    ensures forall i :: 0 <= i < |columns| && columns[i].name !in primaryKeys ==> r[i] == columns[i]
    ensures KeyCount(FlagPrimaryKeys(columns, primaryKeys)) <= |primaryKeys|
    ensures KeyColumnNames(r) == primaryKeys[..KeyCount(FlagPrimaryKeys(columns, primaryKeys))]
    ensures MissingPrimaryKey(primaryKeys, columns).None? && Distinct(primaryKeys) ==> KeyColumnNames(r) == primaryKeys
  {
    KeepsOtherColumns(columns, primaryKeys, r);
    FlaggedKeyNames(columns, primaryKeys, r);
    if MissingPrimaryKey(primaryKeys, columns).None? && Distinct(primaryKeys) {
      KeyColumnsInKeyOrder(columns, primaryKeys, r);
    }
  }

  /** The k-th key slot exists for every k below the number of key columns. */
  lemma {:induction false} KeySlotAt(f: seq<Column>, k: nat)
    requires k < KeyCount(f)
    ensures exists i :: 0 <= i < |f| && f[i].primaryKey && KeyCount(f[..i]) == k
  {
    var last := |f| - 1;
    var init := f[..last];
    if k < KeyCount(init) {
      KeySlotAt(init, k);
      var i :| 0 <= i < |init| && init[i].primaryKey && KeyCount(init[..i]) == k;
      assert init[..i] == f[..i] && init[i] == f[i];
    } else {
      assert f[..last] == init && f[last].primaryKey;
    }
  }

  /** Every key slot's position among the key slots is below the number of key columns. */
  lemma KeySlotBelowCount(f: seq<Column>, i: nat)
    requires i < |f| && f[i].primaryKey
    ensures KeyCount(f[..i]) < KeyCount(f)
  {
    KeyPrefixStep(f, i + 1);
    assert f[..i + 1][..i] == f[..i];
    KeyCountMonotone(f, i + 1);
  }

  /**
   * readColumns as written, on catalog columns, succeeds exactly when each of
   * the first KeyCount key names (one per flagged column) names a column; the
   * key names after those are never looked at.
   */
  lemma ReadColumnsAsWrittenSucceeds(columns: seq<Column>, primaryKeys: seq<string>)
    requires Unflagged(columns) && UniqueNames(columns)
    ensures KeyCount(FlagPrimaryKeys(columns, primaryKeys)) <= |primaryKeys|
    ensures ReadColumnsAsWritten(columns, primaryKeys).Ok?
            <==> forall k :: 0 <= k < KeyCount(FlagPrimaryKeys(columns, primaryKeys)) ==> primaryKeys[k] in NamesOf(columns)
  {
    var f := FlagPrimaryKeys(columns, primaryKeys);
    FlagFacts(columns, primaryKeys);
    KeyCountOfFlagged(columns, primaryKeys);
    PrimaryKeyOrderFails(primaryKeys, f);
    if forall k :: 0 <= k < KeyCount(f) ==> primaryKeys[k] in NamesOf(columns) {
      forall i | 0 <= i < |f| ensures !UnfillableSlot(primaryKeys, f, i) {
        if f[i].primaryKey {
          KeySlotBelowCount(f, i);
        }
      }
    } else {
      var k :| 0 <= k < KeyCount(f) && primaryKeys[k] !in NamesOf(columns);
      KeySlotAt(f, k);
      var i :| 0 <= i < |f| && f[i].primaryKey && KeyCount(f[..i]) == k;
      assert UnfillableSlot(primaryKeys, f, i);
    }
  }

  lemma FlagTwoColumns(a: Column, b: Column)
    requires a.name == "A" && b.name == "B"
    ensures FlagPrimaryKeys([a, b], ["A", "X"]) == [a.(primaryKey := true), b]
  {
    assert "B" !in ["A", "X"];
  }

  lemma IndexTwoColumns(a: Column, b: Column)
    requires a.name == "A" && b.name == "B"
    ensures UniqueIndex([a, b]).Ok?
    ensures "A" in UniqueIndex([a, b]).value && UniqueIndex([a, b]).value["A"] == a
  {
    assert [a, b][0] == a;
  }

  /** Flagging then reordering [A, B] by the key list [A, X] succeeds. */
  lemma TrailingMissingKeyDropped(a: Column, b: Column)
    requires a.name == "A" && b.name == "B" && !a.primaryKey && !b.primaryKey
    ensures ReadColumnsAsWritten([a, b], ["A", "X"]) == Ok([a.(primaryKey := true), b])
  {
    var keyA := a.(primaryKey := true);
    FlagTwoColumns(a, b);
    var f := [keyA, b];
    IndexTwoColumns(keyA, b);
    var byName := UniqueIndex(f).value;
    var pks := ["A", "X"];
    assert f[..0] == [] && KeyCount(f[..0]) == 0;
    var empty: seq<Column> := [];
    ReorderStep(pks, byName, f, 0, empty);
    assert pks[0] == "A" && empty + [byName["A"]] == [keyA];
    ReorderStep(pks, byName, f, 1, [keyA]);
    assert f[..2] == f && f[1] == b && [keyA] + [b] == f;
    assert Reorder(pks, byName, f) == Ok(f);
    assert PrimaryKeyOrder(pks, f) == Ok(f);
  }

  /**
   * The key list names a column that does not exist, in the last position: the
   * code as written drops it without complaint, while the corrected reading
   * reports it.
   */
  lemma TrailingMissingKeyScenario()
    ensures var a := Column("A", String, 10, 0, false, None, "", false);
            var b := Column("B", String, 10, 0, false, None, "", false);
            && ReadColumnsAsWritten([a, b], ["A", "X"]) == Ok([a.(primaryKey := true), b])
            && ReadColumnsSpec([a, b], ["A", "X"]) == Err(MissingPrimaryKeyColumn("X"))
  {
    var a := Column("A", String, 10, 0, false, None, "", false);
    var b := Column("B", String, 10, 0, false, None, "", false);
    TrailingMissingKeyDropped(a, b);
    assert NamesOf([a, b]) == ["A", "B"];
    assert ["A", "X"][1..] == ["X"];
    assert MissingPrimaryKey(["A", "X"], [a, b]) == Some("X");
  }
}
