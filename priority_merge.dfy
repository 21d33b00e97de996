/**
 * `merge_tables_with_priority`: every source table is padded to the wanted
 * columns, the tables are stacked in priority order, and
 * `groupby("Name", as_index=False).first()` collapses them: one row per
 * distinct non-missing name, sorted by name, each column holding the first
 * non-missing value the stacked rows have for that name.
 */
module PriorityMerge {
  import opened Wrappers
  import opened Frames

  // ---------------------------------------------------------------------------
  // Cells of rows that may lack a label
  // ---------------------------------------------------------------------------

  /** The cell under `c`, missing when the row has no such label. */
  function CellOf(row: Row, c: string): Cell {
    if c in row then row[c] else None
  }

  predicate NameIs(row: Row, n: Value) {
    CellOf(row, "Name") == Some(n)
  }

  /** Some row is named `n`. */
  predicate HasName(rows: seq<Row>, n: Value) {
    exists k :: 0 <= k < |rows| && NameIs(rows[k], n)
  }

  /** Some row of some table is named `n`. */
  predicate InputName(ts: seq<Table>, n: Value) {
    exists i :: 0 <= i < |ts| && HasName(ts[i].rows, n)
  }

  // ---------------------------------------------------------------------------
  // Padding and selecting the wanted columns
  // ---------------------------------------------------------------------------

  /** One step of the padding loop: `if col not in df.columns: df[col] = None`. */
  function Pad(t: Table, col: string): (r: Table)
    requires WellFormed(t)
    ensures WellFormed(r) && |r.rows| == |t.rows|
    ensures forall c :: c in r.columns <==> c in t.columns || c == col
    ensures forall k, c :: 0 <= k < |r.rows| && c in r.columns ==> r.rows[k][c] == CellOf(t.rows[k], c)
  {
    if col in t.columns then t else WithColumn(t, col, None)
  }

  /** The table after the padding loop over `cols`: a label it lacked is present and missing everywhere. */
  function Padded(t: Table, cols: seq<string>): (r: Table)
    requires WellFormed(t)
    ensures WellFormed(r) && |r.rows| == |t.rows|
    ensures forall c :: c in r.columns <==> c in t.columns || c in cols
    ensures forall k, c :: 0 <= k < |r.rows| && c in r.columns ==> r.rows[k][c] == CellOf(t.rows[k], c)
    decreases |cols|
  {
    if cols == [] then t
    else
      var prev := Padded(t, cols[..|cols| - 1]);
      assert forall c :: c in cols <==> c in cols[..|cols| - 1] || c == cols[|cols| - 1] by {
        assert cols == cols[..|cols| - 1] + [cols[|cols| - 1]];
      }
      Pad(prev, cols[|cols| - 1])
  }

  /** `df[final_columns]` after padding: exactly the wanted columns, a column the source lacked all missing. */
  function Conform(t: Table, cols: seq<string>): (r: Table)
    requires WellFormed(t) && Distinct(cols)
    ensures WellFormed(r) && r.columns == cols && |r.rows| == |t.rows|
    ensures forall k, c :: 0 <= k < |r.rows| && c in cols ==> r.rows[k][c] == CellOf(t.rows[k], c)
    ensures forall k, c :: 0 <= k < |r.rows| && c in cols && c !in t.columns ==> r.rows[k][c] == None
  {
    Select(Padded(t, cols), cols)
  }

  function Conformed(ts: seq<Table>, cols: seq<string>): (r: seq<Table>)
    requires forall i :: 0 <= i < |ts| ==> WellFormed(ts[i])
    requires Distinct(cols)
    ensures |r| == |ts|
    ensures forall i :: 0 <= i < |r| ==> r[i] == Conform(ts[i], cols)
  {
    seq(|ts|, i requires 0 <= i < |ts| => Conform(ts[i], cols))
  }

  /** `pd.concat(dfs)`: the rows of every table, in the order of the tables. */
  function Stacked(ts: seq<Table>): (rows: seq<Row>)
  {
    if ts == [] then [] else ts[0].rows + Stacked(ts[1..])
  }

  // ---------------------------------------------------------------------------
  // groupby("Name", as_index=False).first()
  // ---------------------------------------------------------------------------

  /** Inserts `v` into a sorted list of keys, unless it is already there. */
  function Insert(xs: seq<Value>, v: Value): (r: seq<Value>)
    requires Sorted(xs)
    ensures Sorted(r)
    ensures forall y :: y in r <==> y in xs || y == v
  {
    if xs == [] then [v]
    else if v == xs[0] then xs
    else if Less(v, xs[0]) then
      assert Sorted([v] + xs) by {
        forall j | 0 < j < |xs| ensures Less(v, xs[j]) {
          LessTransitive(v, xs[0], xs[j]);
        }
      }
      [v] + xs
    else
      LessTotal(v, xs[0]);
      var rest := Insert(xs[1..], v);
      assert forall y :: y in rest ==> Less(xs[0], y);
      [xs[0]] + rest
  }

  /** The group keys: every non-missing name, once each, in ascending order. */
  function GroupKeys(rows: seq<Row>): (ks: seq<Value>)
    ensures Sorted(ks)
    ensures forall n :: n in ks <==> HasName(rows, n)
  {
    if rows == [] then []
    else
      var rest := GroupKeys(rows[1..]);
      assert forall n :: HasName(rows, n) <==> NameIs(rows[0], n) || HasName(rows[1..], n) by {
        forall n | HasName(rows, n) ensures NameIs(rows[0], n) || HasName(rows[1..], n) {
          var k :| 0 <= k < |rows| && NameIs(rows[k], n);
          if k > 0 { assert rows[1..][k - 1] == rows[k]; }
        }
        forall n | HasName(rows[1..], n) ensures HasName(rows, n) {
          var k :| 0 <= k < |rows[1..]| && NameIs(rows[1..][k], n);
          assert rows[k + 1] == rows[1..][k];
        }
      }
      match CellOf(rows[0], "Name")
      case Some(n) => Insert(rest, n)
      case None => rest
  }

  /** The first non-missing `c` cell among the rows named `n`, or missing when they have none. */
  function FirstPresent(rows: seq<Row>, n: Value, c: string): (x: Cell)
    ensures x.Some? ==> exists k :: 0 <= k < |rows| && NameIs(rows[k], n) && CellOf(rows[k], c) == x
                          && forall k' :: 0 <= k' < k && NameIs(rows[k'], n) ==> CellOf(rows[k'], c) == None
    ensures x.None? ==> forall k :: 0 <= k < |rows| && NameIs(rows[k], n) ==> CellOf(rows[k], c) == None
  {
    if rows == [] then None
    else if NameIs(rows[0], n) && CellOf(rows[0], c).Some? then CellOf(rows[0], c)
    else
      var x := FirstPresent(rows[1..], n, c);
      assert forall k :: 1 <= k < |rows| ==> rows[k] == rows[1..][k - 1];
      if x.Some? then
        var k :| 0 <= k < |rows[1..]| && NameIs(rows[1..][k], n) && CellOf(rows[1..][k], c) == x
                 && forall k' :: 0 <= k' < k && NameIs(rows[1..][k'], n) ==> CellOf(rows[1..][k'], c) == None;
        assert NameIs(rows[k + 1], n) && CellOf(rows[k + 1], c) == x;
        x
      else x
  }

  /** The result row of group `n`: the key under `Name`, the first non-missing value under every other label. */
  function GroupFirst(rows: seq<Row>, cols: seq<string>, n: Value): (r: Row)
    ensures r.Keys == ColumnSet(cols)
  {
    map c | c in cols :: if c == "Name" then Some(n) else FirstPresent(rows, n, c)
  }

  /** The result labels: `Name` first, the others in their order. */
  function GroupColumns(cols: seq<string>): (r: seq<string>)
    requires Distinct(cols) && "Name" in cols
    ensures Distinct(r) && ColumnSet(r) == ColumnSet(cols) && |r| > 0 && r[0] == "Name"
  {
    var rest := Without(cols, "Name");
    assert ColumnSet(["Name"] + rest) == ColumnSet(cols);
    ["Name"] + rest
  }

  function GroupBy(rows: seq<Row>, cols: seq<string>): (r: Table)
    requires Distinct(cols) && "Name" in cols
    ensures WellFormed(r) && r.columns == GroupColumns(cols)
  {
    var ks := GroupKeys(rows);
    Table(GroupColumns(cols), seq(|ks|, i requires 0 <= i < |ks| => GroupFirst(rows, cols, ks[i])))
  }

  /**
   * What `merge_tables_with_priority` returns: ValueError for no tables
   * (`pd.concat([])`), KeyError when `Name` is not a wanted column.
   */
  function PriorityMerge(ts: seq<Table>, cols: seq<string>): (r: Result<Table, Exception>)
    requires forall i :: 0 <= i < |ts| ==> WellFormed(ts[i])
    requires Distinct(cols)
    ensures r.Ok? <==> ts != [] && "Name" in cols
    ensures ts == [] ==> r == Err(ValueError)
    ensures ts != [] && "Name" !in cols ==> r == Err(KeyError("Name"))
    ensures r.Ok? ==> WellFormed(r.value) && r.value.columns == GroupColumns(cols)
  {
    if ts == [] then Err(ValueError)
    else if "Name" !in cols then Err(KeyError("Name"))
    else Ok(GroupBy(Stacked(Conformed(ts, cols)), cols))
  }

  /** The reference reading of priority: the first table, in order, that has a non-missing `c` for `n` supplies it. */
  function PriorityValue(ts: seq<Table>, n: Value, c: string): Cell
  {
    if ts == [] then None
    else if FirstPresent(ts[0].rows, n, c).Some? then FirstPresent(ts[0].rows, n, c)
    else PriorityValue(ts[1..], n, c)
  }

  // ---------------------------------------------------------------------------
  // The loop of merge_tables_with_priority
  // ---------------------------------------------------------------------------

  /**
   * Pads each table in place (`df[col] = None`), keeps `df[final_columns]`,
   * then concatenates and groups. The CSV reading and writing are left out:
   * the tables come in as read and the result is returned.
   */
  method MergeTablesWithPriority(tables: seq<Table>, finalColumns: seq<string>) returns (r: Result<Table, Exception>)
    requires forall i :: 0 <= i < |tables| ==> WellFormed(tables[i])
    requires Distinct(finalColumns)
    ensures r == PriorityMerge(tables, finalColumns)
  {
    var dfs: seq<Table> := [];
    for i := 0 to |tables|
      invariant |dfs| == i
      invariant forall j :: 0 <= j < i ==> dfs[j] == Conform(tables[j], finalColumns)
    {
      var df := new Frame(tables[i]);
      PadColumns(df, finalColumns);
      dfs := dfs + [Select(df.Snapshot(), finalColumns)];
    }
    assert dfs == Conformed(tables, finalColumns);
    if dfs == [] {
      r := Err(ValueError);
    } else if "Name" !in finalColumns {
      r := Err(KeyError("Name"));
    } else {
      r := Ok(GroupBy(Stacked(dfs), finalColumns));
    }
  }

  /** The padding loop: `for col in final_columns: if col not in df.columns: df[col] = None`. */
  method PadColumns(df: Frame, cols: seq<string>)
    requires df.Valid()
    modifies df
    ensures df.Valid() && df.Snapshot() == Padded(old(df.Snapshot()), cols)
  {
    ghost var t := df.Snapshot();
    for j := 0 to |cols|
      invariant df.Valid() && df.Snapshot() == Padded(t, cols[..j])
    {
      assert cols[..j + 1][..j] == cols[..j];
      if cols[j] !in df.columns {
        df.Assign(cols[j], None);
      }
    }
    assert cols[..|cols|] == cols;
  }

  // ---------------------------------------------------------------------------
  // What the merge promises
  // ---------------------------------------------------------------------------

  /** Two row lists that agree on the name and on `c` row by row give `c` the same first value. */
  lemma {:induction false} FirstPresentAgree(a: seq<Row>, b: seq<Row>, n: Value, c: string)
    requires |a| == |b|
    requires forall k :: 0 <= k < |a| ==> CellOf(a[k], "Name") == CellOf(b[k], "Name") && CellOf(a[k], c) == CellOf(b[k], c)
    ensures FirstPresent(a, n, c) == FirstPresent(b, n, c)
  {
    if a != [] {
      FirstPresentAgree(a[1..], b[1..], n, c);
    }
  }

  /** Stacking: the earlier rows are searched first. */
  lemma {:induction false} FirstPresentAppend(a: seq<Row>, b: seq<Row>, n: Value, c: string)
    ensures FirstPresent(a + b, n, c) == if FirstPresent(a, n, c).Some? then FirstPresent(a, n, c) else FirstPresent(b, n, c)
  {
    if a != [] {
      assert (a + b)[0] == a[0] && (a + b)[1..] == a[1..] + b;
      FirstPresentAppend(a[1..], b, n, c);
    } else {
      assert a + b == b;
    }
  }

  /** Padding and selecting change neither the names nor the wanted cells a table supplies. */
  lemma ConformFirstPresent(t: Table, cols: seq<string>, n: Value, c: string)
    requires WellFormed(t) && Distinct(cols) && "Name" in cols && c in cols
    ensures FirstPresent(Conform(t, cols).rows, n, c) == FirstPresent(t.rows, n, c)
  {
    FirstPresentAgree(Conform(t, cols).rows, t.rows, n, c);
  }

  /** A column's first value over the stacked, conformed tables is the priority value of the original tables. */
  lemma {:induction false} StackedFirstPresent(ts: seq<Table>, cols: seq<string>, n: Value, c: string)
    requires forall i :: 0 <= i < |ts| ==> WellFormed(ts[i])
    requires Distinct(cols) && "Name" in cols && c in cols
    ensures FirstPresent(Stacked(Conformed(ts, cols)), n, c) == PriorityValue(ts, n, c)
  {
    if ts != [] {
      var cs := Conformed(ts, cols);
      assert cs[1..] == Conformed(ts[1..], cols);
      FirstPresentAppend(cs[0].rows, Stacked(cs[1..]), n, c);
      ConformFirstPresent(ts[0], cols, n, c);
      StackedFirstPresent(ts[1..], cols, n, c);
    }
  }

  lemma HasNameAppend(a: seq<Row>, b: seq<Row>, n: Value)
    ensures HasName(a + b, n) <==> HasName(a, n) || HasName(b, n)
  {
    if HasName(a + b, n) {
      var k :| 0 <= k < |a + b| && NameIs((a + b)[k], n);
      if k < |a| { assert NameIs(a[k], n); } else { assert NameIs(b[k - |a|], n); }
    }
    if HasName(a, n) {
      var k :| 0 <= k < |a| && NameIs(a[k], n);
      assert (a + b)[k] == a[k];
    }
    if HasName(b, n) {
      var k :| 0 <= k < |b| && NameIs(b[k], n);
      assert (a + b)[|a| + k] == b[k];
    }
  }

  lemma InputNameCons(ts: seq<Table>, n: Value)
    requires ts != []
    ensures InputName(ts, n) <==> HasName(ts[0].rows, n) || InputName(ts[1..], n)
  {
    if InputName(ts, n) {
      var i :| 0 <= i < |ts| && HasName(ts[i].rows, n);
      if i > 0 { assert ts[1..][i - 1] == ts[i]; }
    }
    if InputName(ts[1..], n) {
      var i :| 0 <= i < |ts[1..]| && HasName(ts[1..][i].rows, n);
      assert ts[i + 1] == ts[1..][i];
    }
  }

  lemma ConformNames(t: Table, cols: seq<string>, n: Value)
    requires WellFormed(t) && Distinct(cols) && "Name" in cols
    ensures HasName(Conform(t, cols).rows, n) <==> HasName(t.rows, n)
  {
    var c := Conform(t, cols);
    assert forall k :: 0 <= k < |t.rows| ==> CellOf(c.rows[k], "Name") == CellOf(t.rows[k], "Name");
    if HasName(c.rows, n) {
      var k :| 0 <= k < |c.rows| && NameIs(c.rows[k], n);
      assert NameIs(t.rows[k], n);
    }
    if HasName(t.rows, n) {
      var k :| 0 <= k < |t.rows| && NameIs(t.rows[k], n);
      assert NameIs(c.rows[k], n);
    }
  }

  /** The names of the stacked, conformed tables are the names of the original tables. */
  lemma {:induction false} StackedNames(ts: seq<Table>, cols: seq<string>, n: Value)
    requires forall i :: 0 <= i < |ts| ==> WellFormed(ts[i])
    requires Distinct(cols) && "Name" in cols
    ensures HasName(Stacked(Conformed(ts, cols)), n) <==> InputName(ts, n)
  {
    if ts != [] {
      var cs := Conformed(ts, cols);
      assert cs[1..] == Conformed(ts[1..], cols);
      StackedNames(ts[1..], cols, n);
      HasNameAppend(cs[0].rows, Stacked(cs[1..]), n);
      ConformNames(ts[0], cols, n);
      InputNameCons(ts, n);
    }
  }

  /** The merge of tables is the grouping of their stacked, conformed rows. */
  lemma MergeGroups(ts: seq<Table>, cols: seq<string>)
    requires forall i :: 0 <= i < |ts| ==> WellFormed(ts[i])
    requires Distinct(cols) && ts != [] && "Name" in cols
    ensures var rows := Stacked(Conformed(ts, cols));
      && |PriorityMerge(ts, cols).value.rows| == |GroupKeys(rows)|
      && forall i :: 0 <= i < |GroupKeys(rows)| ==> PriorityMerge(ts, cols).value.rows[i] == GroupFirst(rows, cols, GroupKeys(rows)[i])
  {
  }

  /** Every merged row is named, by a name some input row has. */
  lemma MergedNames(ts: seq<Table>, cols: seq<string>)
    requires forall i :: 0 <= i < |ts| ==> WellFormed(ts[i])
    requires Distinct(cols) && ts != [] && "Name" in cols
    ensures var r := PriorityMerge(ts, cols).value;
      forall i :: 0 <= i < |r.rows| ==> "Name" in r.rows[i] && r.rows[i]["Name"].Some? && InputName(ts, r.rows[i]["Name"].value)
  {
    var r := PriorityMerge(ts, cols).value;
    var ks := GroupKeys(Stacked(Conformed(ts, cols)));
    MergeGroups(ts, cols);
    forall i | 0 <= i < |r.rows| ensures "Name" in r.rows[i] && r.rows[i]["Name"] == Some(ks[i]) && InputName(ts, ks[i]) {
      StackedNames(ts, cols, ks[i]);
    }
  }

  /** Every non-missing input name has a merged row. */
  lemma NamesMerged(ts: seq<Table>, cols: seq<string>)
    requires forall i :: 0 <= i < |ts| ==> WellFormed(ts[i])
    requires Distinct(cols) && ts != [] && "Name" in cols
    ensures var r := PriorityMerge(ts, cols).value;
      forall n :: InputName(ts, n) ==> exists i :: 0 <= i < |r.rows| && "Name" in r.rows[i] && r.rows[i]["Name"] == Some(n)
  {
    var r := PriorityMerge(ts, cols).value;
    var ks := GroupKeys(Stacked(Conformed(ts, cols)));
    MergeGroups(ts, cols);
    forall n | InputName(ts, n) ensures exists i :: 0 <= i < |r.rows| && "Name" in r.rows[i] && r.rows[i]["Name"] == Some(n) {
      StackedNames(ts, cols, n);
      var i :| 0 <= i < |ks| && ks[i] == n;
      assert r.rows[i]["Name"] == Some(n);
    }
  }

  /** The merged rows are in strictly ascending name order. */
  lemma MergedOrder(ts: seq<Table>, cols: seq<string>)
    requires forall i :: 0 <= i < |ts| ==> WellFormed(ts[i])
    requires Distinct(cols) && ts != [] && "Name" in cols
    ensures var r := PriorityMerge(ts, cols).value;
      forall i, j :: 0 <= i < j < |r.rows| ==>
        && "Name" in r.rows[i] && "Name" in r.rows[j] && r.rows[i]["Name"].Some? && r.rows[j]["Name"].Some?
        && Less(r.rows[i]["Name"].value, r.rows[j]["Name"].value)
  {
    var ks := GroupKeys(Stacked(Conformed(ts, cols)));
    MergeGroups(ts, cols);
    assert Sorted(ks);
  }

  /**
   * Per-column priority: under every wanted label other than `Name` a merged
   * row holds the first non-missing value its name has in priority order,
   * table by table; a table lacking that column never supplies it.
   */
  lemma MergedCells(ts: seq<Table>, cols: seq<string>)
    requires forall i :: 0 <= i < |ts| ==> WellFormed(ts[i])
    requires Distinct(cols) && ts != [] && "Name" in cols
    ensures var r := PriorityMerge(ts, cols).value;
      forall i, c :: 0 <= i < |r.rows| && c in cols && c != "Name" ==>
        && c in r.rows[i] && "Name" in r.rows[i] && r.rows[i]["Name"].Some?
        && r.rows[i][c] == PriorityValue(ts, r.rows[i]["Name"].value, c)
  {
    var r := PriorityMerge(ts, cols).value;
    var rows := Stacked(Conformed(ts, cols));
    var ks := GroupKeys(rows);
    MergeGroups(ts, cols);
    forall i, c | 0 <= i < |r.rows| && c in cols && c != "Name"
      ensures c in r.rows[i] && "Name" in r.rows[i] && r.rows[i]["Name"] == Some(ks[i])
      ensures r.rows[i][c] == PriorityValue(ts, ks[i], c)
    {
      StackedFirstPresent(ts, cols, ks[i], c);
    }
  }

  /** The tail of an ascending list is its other elements, still ascending. */
  lemma SortedTail(a: seq<Value>)
    requires Sorted(a) && a != []
    ensures Sorted(a[1..])
    ensures forall v :: v in a[1..] <==> v in a && v != a[0]
  {
    forall v ensures v in a[1..] <==> v in a && v != a[0] {
      if v in a[1..] {
        var i :| 0 <= i < |a[1..]| && a[1..][i] == v;
        assert Less(a[0], a[i + 1]);
        if v == a[0] { LessIrreflexive(a[0]); }
      }
      if v in a && v != a[0] {
        var i :| 0 <= i < |a| && a[i] == v;
        assert a[1..][i - 1] == v;
      }
    }
  }

  /** Two ascending key lists with the same elements are the same list. */
  lemma {:induction false} SortedUnique(a: seq<Value>, b: seq<Value>)
    requires Sorted(a) && Sorted(b)
    requires forall v :: v in a <==> v in b
    ensures a == b
  {
    if b != [] {
      assert b[0] in b;
    }
    if a != [] {
      assert a[0] in a;
      if a[0] != b[0] {
        var i :| 0 <= i < |a| && a[i] == b[0];
        var j :| 0 <= j < |b| && b[j] == a[0];
        assert Less(a[0], b[0]) && Less(b[0], a[0]);
        LessAsymmetric(a[0], b[0]);
      }
      SortedTail(a);
      SortedTail(b);
      SortedUnique(a[1..], b[1..]);
      assert a == [a[0]] + a[1..] && b == [b[0]] + b[1..];
    }
  }

  /** A name held by one row only takes all its cells from that row. */
  lemma {:induction false} FirstPresentUnique(rows: seq<Row>, k: nat, c: string)
    requires k < |rows| && CellOf(rows[k], "Name").Some?
    requires forall k' :: 0 <= k' < |rows| && k' != k ==> CellOf(rows[k'], "Name") != CellOf(rows[k], "Name")
    ensures FirstPresent(rows, CellOf(rows[k], "Name").value, c) == CellOf(rows[k], c)
  {
    var n := CellOf(rows[k], "Name").value;
    var x := FirstPresent(rows, n, c);
    if x.Some? {
      var k0 :| 0 <= k0 < |rows| && NameIs(rows[k0], n) && CellOf(rows[k0], c) == x;
      assert k0 == k;
    }
  }

  /** A table whose rows carry every wanted label and distinct non-missing names. */
  predicate KeyedTable(t: Table, cols: seq<string>) {
    && WellFormed(t) && ColumnSet(t.columns) == ColumnSet(cols)
    && (forall k :: 0 <= k < |t.rows| ==> CellOf(t.rows[k], "Name").Some?)
    && (forall k, k' :: 0 <= k < k' < |t.rows| ==> CellOf(t.rows[k], "Name") != CellOf(t.rows[k'], "Name"))
  }

  /** Padding and selecting leave a keyed table's rows as they are. */
  lemma KeyedStack(t: Table, cols: seq<string>)
    requires Distinct(cols) && "Name" in cols && KeyedTable(t, cols)
    ensures Stacked(Conformed([t], cols)) == t.rows
  {
    var c := Conform(t, cols);
    assert c.rows == t.rows by {
      forall k | 0 <= k < |t.rows| ensures c.rows[k] == t.rows[k] {
        assert c.rows[k].Keys == t.rows[k].Keys;
      }
    }
    assert Conformed([t], cols) == [c];
    assert Stacked([c]) == c.rows + Stacked([]);
  }

  /**
   * Merging one table that already has the wanted labels and distinct names
   * returns the same rows, only reordered by name.
   */
  lemma SingleTable(t: Table, cols: seq<string>)
    requires Distinct(cols) && "Name" in cols && KeyedTable(t, cols)
    ensures var r := PriorityMerge([t], cols).value;
      && |r.rows| == |t.rows|
      && (forall i :: 0 <= i < |r.rows| ==> r.rows[i] in t.rows)
      && (forall k :: 0 <= k < |t.rows| ==> t.rows[k] in r.rows)
  {
    var r := PriorityMerge([t], cols).value;
    KeyedStack(t, cols);
    MergeGroups([t], cols);
    KeysCount(t, cols);
    GroupsAreRows(t, cols, r.rows);
  }

  /** Rows that are the groups of a keyed table, one per name, are that table's rows. */
  lemma GroupsAreRows(t: Table, cols: seq<string>, rs: seq<Row>)
    requires Distinct(cols) && "Name" in cols && KeyedTable(t, cols)
    requires |rs| == |GroupKeys(t.rows)|
    requires forall i :: 0 <= i < |rs| ==> rs[i] == GroupFirst(t.rows, cols, GroupKeys(t.rows)[i])
    ensures forall i :: 0 <= i < |rs| ==> rs[i] in t.rows
    ensures forall k :: 0 <= k < |t.rows| ==> t.rows[k] in rs
  {
    var ks := GroupKeys(t.rows);
    forall i | 0 <= i < |ks| ensures rs[i] in t.rows {
      assert ks[i] in ks;
      assert HasName(t.rows, ks[i]);
      var k :| 0 <= k < |t.rows| && NameIs(t.rows[k], ks[i]);
      RowOfUniqueName(t, cols, k, ks[i]);
    }
    forall k | 0 <= k < |t.rows| ensures t.rows[k] in rs {
      var n := CellOf(t.rows[k], "Name").value;
      assert NameIs(t.rows[k], n);
      assert HasName(t.rows, n);
      assert n in ks;
      var i :| 0 <= i < |ks| && ks[i] == n;
      RowOfUniqueName(t, cols, k, n);
      assert rs[i] == t.rows[k];
    }
  }

  /** In a keyed table the group of a row's name is that row. */
  lemma RowOfUniqueName(t: Table, cols: seq<string>, k: nat, n: Value)
    requires Distinct(cols) && "Name" in cols && KeyedTable(t, cols)
    requires k < |t.rows| && NameIs(t.rows[k], n)
    ensures GroupFirst(t.rows, cols, n) == t.rows[k]
  {
    forall k' | 0 <= k' < |t.rows| && k' != k ensures CellOf(t.rows[k'], "Name") != CellOf(t.rows[k], "Name") {
      if k' < k { assert CellOf(t.rows[k'], "Name") != CellOf(t.rows[k], "Name"); }
    }
    forall c | c in cols ensures GroupFirst(t.rows, cols, n)[c] == t.rows[k][c] {
      FirstPresentUnique(t.rows, k, c);
    }
  }

  /** A keyed table has as many group keys as rows. */
  lemma KeysCount(t: Table, cols: seq<string>)
    requires Distinct(cols) && "Name" in cols && KeyedTable(t, cols)
    ensures |GroupKeys(t.rows)| == |t.rows|
  {
    var ks := GroupKeys(t.rows);
    var names := seq(|t.rows|, k requires 0 <= k < |t.rows| => CellOf(t.rows[k], "Name").value);
    assert forall k :: 0 <= k < |t.rows| ==> NameIs(t.rows[k], names[k]);
    var ksSet := set i | 0 <= i < |ks| :: ks[i];
    var nameSet := set k | 0 <= k < |names| :: names[k];
    forall v ensures v in ksSet <==> v in nameSet {
      if v in ksSet {
        assert v in ks;
        var k :| 0 <= k < |t.rows| && NameIs(t.rows[k], v);
        assert names[k] == v;
      }
      if v in nameSet {
        var k :| 0 <= k < |names| && names[k] == v;
        assert HasName(t.rows, v);
        var i :| 0 <= i < |ks| && ks[i] == v;
      }
    }
    assert ksSet == nameSet;
    forall i, j | 0 <= i < j < |ks| ensures ks[i] != ks[j] {
      LessIrreflexive(ks[i]);
    }
    forall i, j | 0 <= i < j < |names| ensures names[i] != names[j] {
      assert CellOf(t.rows[i], "Name") != CellOf(t.rows[j], "Name");
    }
    DistinctCard(ks);
    DistinctCard(names);
  }

  /** A list whose elements differ pairwise has as many distinct elements as entries. */
  lemma {:induction false} DistinctCard(xs: seq<Value>)
    requires forall i, j :: 0 <= i < j < |xs| ==> xs[i] != xs[j]
    ensures |set i | 0 <= i < |xs| :: xs[i]| == |xs|
  {
    if xs != [] {
      var last := xs[|xs| - 1];
      var init := xs[..|xs| - 1];
      DistinctCard(init);
      assert (set i | 0 <= i < |xs| :: xs[i]) == (set i | 0 <= i < |init| :: init[i]) + {last};
    }
  }

  /** A merge result is a keyed table whose row `i` is named by the `i`-th group key. */
  lemma MergedKeyed(ts: seq<Table>, cols: seq<string>)
    requires forall i :: 0 <= i < |ts| ==> WellFormed(ts[i])
    requires Distinct(cols) && ts != [] && "Name" in cols
    ensures var m := PriorityMerge(ts, cols).value; var ks := GroupKeys(Stacked(Conformed(ts, cols)));
      && KeyedTable(m, cols) && |m.rows| == |ks|
      && forall i :: 0 <= i < |m.rows| ==> NameIs(m.rows[i], ks[i])
  {
    var m := PriorityMerge(ts, cols).value;
    var ks := GroupKeys(Stacked(Conformed(ts, cols)));
    MergeGroups(ts, cols);
    assert forall i :: 0 <= i < |m.rows| ==> CellOf(m.rows[i], "Name") == Some(ks[i]);
    forall k, k' | 0 <= k < k' < |m.rows| ensures CellOf(m.rows[k], "Name") != CellOf(m.rows[k'], "Name") {
      LessIrreflexive(ks[k]);
    }
  }

  /** Merging a merge result again, with the same wanted columns, changes nothing. */
  lemma MergeIdempotent(ts: seq<Table>, cols: seq<string>)
    requires forall i :: 0 <= i < |ts| ==> WellFormed(ts[i])
    requires Distinct(cols) && ts != [] && "Name" in cols
    ensures PriorityMerge([PriorityMerge(ts, cols).value], cols) == PriorityMerge(ts, cols)
  {
    var m := PriorityMerge(ts, cols).value;
    var ks := GroupKeys(Stacked(Conformed(ts, cols)));
    MergedKeyed(ts, cols);
    KeyedStack(m, cols);
    MergeGroups([m], cols);
    var r := PriorityMerge([m], cols).value;
    var ks2 := GroupKeys(m.rows);
    forall v ensures v in ks2 <==> v in ks {
      if v in ks2 {
        var k :| 0 <= k < |m.rows| && NameIs(m.rows[k], v);
      }
      if v in ks {
        var i :| 0 <= i < |ks| && ks[i] == v;
        assert NameIs(m.rows[i], v);
      }
    }
    SortedUnique(ks2, ks);
    assert r.rows == m.rows by {
      forall i | 0 <= i < |m.rows| ensures r.rows[i] == m.rows[i] {
        RowOfUniqueName(m, cols, i, ks[i]);
      }
    }
  }
}
