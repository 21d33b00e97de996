/**
 * The part of pandas that the galaxy scripts use, stated on values: a
 * DataFrame is a list of column labels and a list of rows, each row mapping
 * every label to a cell, and a cell is either a value or missing (NaN/None,
 * the cells `pd.isna` holds for). Operations that build a new frame are
 * functions; the operations the scripts apply in place (`df.at[i, c] = x`,
 * `df[c] = x`, `rename(..., inplace=True)`, `replace(..., inplace=True)`)
 * are methods of the class `Frame`, each tied to the function that gives its
 * new state.
 */
module Frames {
  import opened Wrappers
  import PyText

  /** A cell value: a string, a number (integer or float) or a boolean. */
  datatype Value = Text(s: string) | Number(x: real) | Flag(b: bool)

  /** `None` is pandas' missing marker. */
  type Cell = Option<Value>

  type Row = map<string, Cell>

  /** A DataFrame: its column labels in order and its rows. */
  datatype Table = Table(columns: seq<string>, rows: seq<Row>)

  /** The Python exceptions the modelled code raises. */
  datatype Exception =
    | KeyError(key: string)
    | IndexError
    | NameError(variable: string)
    | ValueError
    | MergeError
    | AttributeError
      /** a failed request, page parse or `tables[k]` lookup inside a fetch */
    | FetchError

  predicate Distinct(cols: seq<string>) {
    forall i, j :: 0 <= i < j < |cols| ==> cols[i] != cols[j]
  }

  function ColumnSet(cols: seq<string>): set<string> {
    set c | c in cols
  }

  /** Column labels are unique and every row has a cell for exactly those labels. */
  predicate WellFormed(t: Table) {
    Distinct(t.columns) && forall k :: 0 <= k < |t.rows| ==> t.rows[k].Keys == ColumnSet(t.columns)
  }

  /** Every present cell of `t0` outside the columns `exempt` is present and the same in `t`. */
  predicate PresentCellsKept(t0: Table, t: Table, exempt: set<string>) {
    && |t.rows| == |t0.rows|
    && forall k, c :: 0 <= k < |t0.rows| && c !in exempt && c in t0.rows[k] && t0.rows[k][c].Some? ==>
         c in t.rows[k] && t.rows[k][c] == t0.rows[k][c]
  }

  /** The set of cells a column holds, over all rows. */
  function ColumnValues(t: Table, col: string): set<Cell> {
    set k | 0 <= k < |t.rows| && col in t.rows[k] :: t.rows[k][col]
  }

  // ---------------------------------------------------------------------------
  // Ordering of keys, as `groupby(..., sort=True)` sorts them
  // ---------------------------------------------------------------------------

  /** Python's `<` on strings: lexicographic by code point. */
  predicate StrLess(a: string, b: string)
    decreases |a|
  {
    if a == [] then b != []
    else if b == [] then false
    else if a[0] != b[0] then a[0] < b[0]
    else StrLess(a[1..], b[1..])
  }

  function Rank(v: Value): nat {
    match v
    case Flag(_) => 0
    case Number(_) => 1
    case Text(_) => 2
  }

  /** A strict total order on values: within a kind Python's own order, and kinds in a fixed order. */
  predicate Less(a: Value, b: Value) {
    if Rank(a) != Rank(b) then Rank(a) < Rank(b)
    else match a
      case Flag(x) => !x && b.b
      case Number(x) => x < b.x
      case Text(x) => StrLess(x, b.s)
  }

  lemma {:induction false} StrLessIrreflexive(a: string)
    ensures !StrLess(a, a)
  {
    if a != [] { StrLessIrreflexive(a[1..]); }
  }

  lemma {:induction false} StrLessTransitive(a: string, b: string, c: string)
    requires StrLess(a, b) && StrLess(b, c)
    ensures StrLess(a, c)
    decreases |a|
  {
    if a != [] && b != [] && c != [] && a[0] == b[0] && b[0] == c[0] {
      StrLessTransitive(a[1..], b[1..], c[1..]);
    }
  }

  lemma {:induction false} StrLessTotal(a: string, b: string)
    requires a != b
    ensures StrLess(a, b) || StrLess(b, a)
    decreases |a|
  {
    if a != [] && b != [] && a[0] == b[0] {
      assert a == [a[0]] + a[1..] && b == [b[0]] + b[1..];
      StrLessTotal(a[1..], b[1..]);
    }
  }

  lemma LessIrreflexive(a: Value)
    ensures !Less(a, a)
  {
    if a.Text? { StrLessIrreflexive(a.s); }
  }

  lemma LessTransitive(a: Value, b: Value, c: Value)
    requires Less(a, b) && Less(b, c)
    ensures Less(a, c)
  {
    if a.Text? && b.Text? && c.Text? { StrLessTransitive(a.s, b.s, c.s); }
  }

  lemma LessTotal(a: Value, b: Value)
    requires a != b
    ensures Less(a, b) || Less(b, a)
  {
    if a.Text? && b.Text? { StrLessTotal(a.s, b.s); }
  }

  lemma LessAsymmetric(a: Value, b: Value)
    requires Less(a, b)
    ensures !Less(b, a)
  {
    if Less(b, a) {
      LessTransitive(a, b, a);
      LessIrreflexive(a);
    }
  }

  /** Strictly increasing, hence also free of repeats. */
  predicate Sorted(xs: seq<Value>) {
    forall i, j :: 0 <= i < j < |xs| ==> Less(xs[i], xs[j])
  }

  // ---------------------------------------------------------------------------
  // Cell and column operations
  // ---------------------------------------------------------------------------

  /** `df.at[i, col]`: KeyError when the frame has no such column. */
  function CellAt(t: Table, i: nat, col: string): (r: Result<Cell, Exception>)
    requires WellFormed(t) && i < |t.rows|
    ensures r.Ok? <==> col in t.columns
    ensures r.Ok? ==> r.value == t.rows[i][col]
    ensures r.Err? ==> r.error == KeyError(col)
  {
    if col in t.columns then Ok(t.rows[i][col]) else Err(KeyError(col))
  }

  /**
   * `df.at[i, col] = x`. When `col` is a new label pandas enlarges the frame:
   * the column is appended and is missing in every other row.
   */
  function WithCell(t: Table, i: nat, col: string, x: Cell): (r: Table)
    requires WellFormed(t) && i < |t.rows|
    ensures WellFormed(r) && |r.rows| == |t.rows|
    ensures r.columns == if col in t.columns then t.columns else t.columns + [col]
    ensures r.rows[i][col] == x
    ensures forall c :: c in t.columns && c != col ==> r.rows[i][c] == t.rows[i][c]
    ensures forall k, c :: 0 <= k < |t.rows| && k != i && c in t.columns ==> r.rows[k][c] == t.rows[k][c]
    ensures col !in t.columns ==> forall k :: 0 <= k < |t.rows| && k != i ==> r.rows[k][col] == None
  {
    if col in t.columns then
      Table(t.columns, t.rows[i := t.rows[i][col := x]])
    else
      Table(t.columns + [col],
            seq(|t.rows|, k requires 0 <= k < |t.rows| => t.rows[k][col := if k == i then x else None]))
  }

  /** `df[col] = x` for a scalar `x`: every row's `col` becomes `x`; a new label is appended. */
  function WithColumn(t: Table, col: string, x: Cell): (r: Table)
    requires WellFormed(t)
    ensures WellFormed(r) && |r.rows| == |t.rows|
    ensures r.columns == if col in t.columns then t.columns else t.columns + [col]
    ensures forall k :: 0 <= k < |r.rows| ==> r.rows[k][col] == x
    ensures forall k, c :: 0 <= k < |r.rows| && c in t.columns && c != col ==> r.rows[k][c] == t.rows[k][c]
  {
    Table(if col in t.columns then t.columns else t.columns + [col],
          seq(|t.rows|, k requires 0 <= k < |t.rows| => t.rows[k][col := x]))
  }

  /** `df[cols]`: the listed columns, in the listed order. */
  function Select(t: Table, cols: seq<string>): (r: Table)
    requires WellFormed(t) && Distinct(cols)
    requires forall c :: c in cols ==> c in t.columns
    ensures WellFormed(r) && r.columns == cols && |r.rows| == |t.rows|
    ensures forall k, c :: 0 <= k < |r.rows| && c in cols ==> r.rows[k][c] == t.rows[k][c]
  {
    Table(cols, seq(|t.rows|, k requires 0 <= k < |t.rows| => map c | c in cols :: t.rows[k][c]))
  }

  /** `cols` without `key`, order kept. */
  function Without(cols: seq<string>, key: string): (r: seq<string>)
    ensures forall c :: c in r <==> c in cols && c != key
    ensures Distinct(cols) ==> Distinct(r)
    ensures key !in cols ==> r == cols
    ensures key in cols && Distinct(cols) ==> |r| == |cols| - 1
  {
    if cols == [] then []
    else if cols[0] == key then
      assert Distinct(cols) ==> key !in cols[1..];
      Without(cols[1..], key)
    else
      var rest := Without(cols[1..], key);
      assert Distinct(cols) ==> cols[0] !in cols[1..] && Distinct(cols[1..]);
      [cols[0]] + rest
  }

  /** Splitting a repeat-free label list keeps both halves repeat-free and apart. */
  lemma DistinctAppend(a: seq<string>, b: seq<string>)
    requires Distinct(a + b)
    ensures Distinct(a) && Distinct(b)
    ensures ColumnSet(a) !! ColumnSet(b)
    ensures ColumnSet(a + b) == ColumnSet(a) + ColumnSet(b)
  {
    var ab := a + b;
    forall i, j | 0 <= i < j < |a| ensures a[i] != a[j] {
      assert ab[i] == a[i] && ab[j] == a[j];
    }
    forall i, j | 0 <= i < j < |b| ensures b[i] != b[j] {
      assert ab[|a| + i] == b[i] && ab[|a| + j] == b[j];
    }
    forall i, j | 0 <= i < |a| && 0 <= j < |b| ensures a[i] != b[j] {
      assert ab[i] == a[i] && ab[|a| + j] == b[j];
    }
  }

  /** The labels after renaming `from` to `to`. */
  function RenameLabel(cols: seq<string>, from: string, to: string): (r: seq<string>)
    ensures |r| == |cols|
    ensures forall i :: 0 <= i < |cols| ==> r[i] == if cols[i] == from then to else cols[i]
  {
    if cols == [] then [] else [if cols[0] == from then to else cols[0]] + RenameLabel(cols[1..], from, to)
  }

  lemma RenameLabelFacts(cols: seq<string>, from: string, to: string)
    requires Distinct(cols) && from in cols && to !in cols
    ensures Distinct(RenameLabel(cols, from, to))
    ensures ColumnSet(RenameLabel(cols, from, to)) == ColumnSet(cols) - {from} + {to}
  {
    var r := RenameLabel(cols, from, to);
    forall i, j | 0 <= i < j < |r| ensures r[i] != r[j] {
      assert cols[i] != cols[j];
    }
    RenameLabelSet(cols, from, to);
  }

  lemma RenameLabelSet(cols: seq<string>, from: string, to: string)
    requires from in cols
    ensures ColumnSet(RenameLabel(cols, from, to)) == ColumnSet(cols) - {from} + {to}
  {
    var r := RenameLabel(cols, from, to);
    var want := ColumnSet(cols) - {from} + {to};
    forall o | o in ColumnSet(r) ensures o in want {
      var i :| 0 <= i < |r| && r[i] == o;
      assert cols[i] in ColumnSet(cols);
    }
    forall o | o in want ensures o in ColumnSet(r) {
      var i :| 0 <= i < |cols| && cols[i] == (if o == to then from else o);
      assert r[i] == o;
    }
  }

  /** `df.rename(columns={from: to})`: the label `from` becomes `to`; nothing happens without `from`. */
  function Renamed(t: Table, from: string, to: string): (r: Table)
    requires WellFormed(t)
    requires from in t.columns && from != to ==> to !in t.columns
    ensures WellFormed(r) && |r.rows| == |t.rows|
    ensures from in t.columns ==> to in r.columns && (from != to ==> from !in r.columns)
    ensures from in t.columns ==> forall k :: 0 <= k < |r.rows| ==> r.rows[k][to] == t.rows[k][from]
    ensures forall k, c :: 0 <= k < |r.rows| && c in t.columns && c != from ==> c in r.rows[k] && r.rows[k][c] == t.rows[k][c]
    ensures from !in t.columns ==> r == t
  {
    if from !in t.columns || from == to then t
    else
      RenameLabelFacts(t.columns, from, to);
      Table(RenameLabel(t.columns, from, to),
            seq(|t.rows|, k requires 0 <= k < |t.rows| => (t.rows[k] - {from})[to := t.rows[k][from]]))
  }

  /** `Series.str.strip()` on one cell: text is stripped, anything that is not text becomes missing. */
  function StrippedCell(c: Cell): (r: Cell)
    ensures r.Some? ==> c.Some? && c.value.Text? && r.value == Text(PyText.Strip(c.value.s))
    ensures c.Some? && c.value.Text? ==> r.Some?
  {
    match c
    case Some(Text(s)) => Some(Text(PyText.Strip(s)))
    case _ => None
  }

  /** `df[col] = df[col].str.strip()`: KeyError when there is no such column. */
  function StrippedColumn(t: Table, col: string): (r: Result<Table, Exception>)
    requires WellFormed(t)
    ensures r.Ok? <==> col in t.columns
    ensures r.Err? ==> r.error == KeyError(col)
    ensures r.Ok? ==> WellFormed(r.value) && r.value.columns == t.columns && |r.value.rows| == |t.rows|
    ensures r.Ok? ==> forall k :: 0 <= k < |t.rows| ==> r.value.rows[k] == t.rows[k][col := StrippedCell(t.rows[k][col])]
  {
    if col !in t.columns then Err(KeyError(col))
    else Ok(Table(t.columns, seq(|t.rows|, k requires 0 <= k < |t.rows| => t.rows[k][col := StrippedCell(t.rows[k][col])])))
  }

  /** `df.replace(target, np.nan)`: every cell equal to `target` becomes missing. */
  function Scrubbed(t: Table, target: Value): (r: Table)
    requires WellFormed(t)
    ensures WellFormed(r) && r.columns == t.columns && |r.rows| == |t.rows|
    ensures forall k, c :: 0 <= k < |r.rows| && c in r.rows[k] ==> r.rows[k][c] != Some(target)
    ensures forall k, c :: 0 <= k < |r.rows| && c in t.columns && t.rows[k][c] != Some(target) ==> r.rows[k][c] == t.rows[k][c]
    ensures forall k, c :: 0 <= k < |r.rows| && c in t.columns && t.rows[k][c] == Some(target) ==> r.rows[k][c] == None
  {
    Table(t.columns, seq(|t.rows|, k requires 0 <= k < |t.rows| =>
      map c | c in t.rows[k] :: if t.rows[k][c] == Some(target) then None else t.rows[k][c]))
  }

  // ---------------------------------------------------------------------------
  // pd.merge(left, right, on=key, how="left")
  // ---------------------------------------------------------------------------

  /** The label a column gets in the merge result: overlapping labels take the side's suffix. */
  function Suffixed(c: string, overlap: set<string>, suffix: string): string {
    if c in overlap then c + suffix else c
  }

  function SuffixedAll(cols: seq<string>, overlap: set<string>, suffix: string): (r: seq<string>)
    ensures |r| == |cols|
    ensures forall i :: 0 <= i < |cols| ==> r[i] == Suffixed(cols[i], overlap, suffix)
  {
    if cols == [] then [] else [Suffixed(cols[0], overlap, suffix)] + SuffixedAll(cols[1..], overlap, suffix)
  }

  /** Non-key labels the two frames share; pandas suffixes them `_x` (left) and `_y` (right). */
  function Overlap(l: Table, r: Table, key: string): set<string> {
    set c | c in l.columns && c in r.columns && c != key
  }

  /** The result's labels: the left frame's, then the right frame's other than the key. */
  function JoinColumns(l: Table, r: Table, key: string): seq<string> {
    SuffixedAll(l.columns, Overlap(l, r, key), "_x") + SuffixedAll(Without(r.columns, key), Overlap(l, r, key), "_y")
  }

  /** The indices `m >= from` of the rows whose key cell equals `k`, ascending (missing matches missing, as in pandas). */
  function MatchIndices(rs: seq<Row>, key: string, k: Cell, from: nat): (ms: seq<nat>)
    requires from <= |rs|
    ensures forall i :: 0 <= i < |ms| ==> from <= ms[i] < |rs| && key in rs[ms[i]] && rs[ms[i]][key] == k
    ensures forall m :: from <= m < |rs| && key in rs[m] && rs[m][key] == k ==> m in ms
    ensures forall i, i' :: 0 <= i < i' < |ms| ==> ms[i] < ms[i']
    decreases |rs| - from
  {
    if from == |rs| then []
    else if key in rs[from] && rs[from][key] == k then [from] + MatchIndices(rs, key, k, from + 1)
    else MatchIndices(rs, key, k, from + 1)
  }

  lemma SuffixedInjective(cols: seq<string>, overlap: set<string>, suffix: string, a: string, b: string)
    requires Distinct(SuffixedAll(cols, overlap, suffix))
    requires a in cols && b in cols && Suffixed(a, overlap, suffix) == Suffixed(b, overlap, suffix)
    ensures a == b
  {
    var i :| 0 <= i < |cols| && cols[i] == a;
    var j :| 0 <= j < |cols| && cols[j] == b;
    var s := SuffixedAll(cols, overlap, suffix);
    assert s[i] == s[j];
  }

  /** A row's cells under their merge labels. */
  function Relabel(row: Row, cols: seq<string>, overlap: set<string>, suffix: string): (m: Row)
    requires Distinct(SuffixedAll(cols, overlap, suffix))
    requires forall c :: c in cols ==> c in row
    ensures m.Keys == ColumnSet(SuffixedAll(cols, overlap, suffix))
    ensures forall c :: c in cols ==> m[Suffixed(c, overlap, suffix)] == row[c]
  {
    forall a, b | a in cols && b in cols && Suffixed(a, overlap, suffix) == Suffixed(b, overlap, suffix)
      ensures row[a] == row[b]
    {
      SuffixedInjective(cols, overlap, suffix, a, b);
    }
    var m := map c | c in cols :: Suffixed(c, overlap, suffix) := row[c];
    assert m.Keys == ColumnSet(SuffixedAll(cols, overlap, suffix)) by {
      var s := SuffixedAll(cols, overlap, suffix);
      forall o | o in ColumnSet(s) ensures o in m {
        var i :| 0 <= i < |s| && s[i] == o;
        assert cols[i] in cols;
      }
    }
    m
  }

  /** Missing cells under the right frame's merge labels, for a left row without a match. */
  function MissingRelabel(cols: seq<string>, overlap: set<string>, suffix: string): (m: Row)
    ensures m.Keys == ColumnSet(SuffixedAll(cols, overlap, suffix))
    ensures forall o :: o in m ==> m[o] == None
  {
    var s := SuffixedAll(cols, overlap, suffix);
    map o | o in s :: None
  }

  /** A merge result is well formed exactly when pandas does not refuse the labels. */
  predicate Joinable(l: Table, r: Table, key: string) {
    WellFormed(l) && WellFormed(r) && key in l.columns && key in r.columns && Distinct(JoinColumns(l, r, key))
  }

  lemma JoinableParts(l: Table, r: Table, key: string)
    requires Joinable(l, r, key)
    ensures Distinct(SuffixedAll(l.columns, Overlap(l, r, key), "_x"))
    ensures Distinct(SuffixedAll(Without(r.columns, key), Overlap(l, r, key), "_y"))
    ensures ColumnSet(SuffixedAll(l.columns, Overlap(l, r, key), "_x")) !! ColumnSet(SuffixedAll(Without(r.columns, key), Overlap(l, r, key), "_y"))
    ensures ColumnSet(JoinColumns(l, r, key)) == ColumnSet(SuffixedAll(l.columns, Overlap(l, r, key), "_x")) + ColumnSet(SuffixedAll(Without(r.columns, key), Overlap(l, r, key), "_y"))
  {
    DistinctAppend(SuffixedAll(l.columns, Overlap(l, r, key), "_x"), SuffixedAll(Without(r.columns, key), Overlap(l, r, key), "_y"));
  }

  /** One result row: the left row's cells, then the matched right row's non-key cells (or missing). */
  function JoinRow(l: Table, r: Table, key: string, lrow: Row, rrow: Option<Row>): (o: Row)
    requires Joinable(l, r, key)
    requires lrow.Keys == ColumnSet(l.columns)
    requires rrow.Some? ==> rrow.value.Keys == ColumnSet(r.columns)
    ensures o.Keys == ColumnSet(JoinColumns(l, r, key))
  {
    JoinableParts(l, r, key);
    var ov := Overlap(l, r, key);
    var rest := Without(r.columns, key);
    Relabel(lrow, l.columns, ov, "_x")
      + if rrow.Some? then Relabel(rrow.value, rest, ov, "_y") else MissingRelabel(rest, ov, "_y")
  }

  /** Which left row and which right row (if any) one result row of a merge combines. */
  datatype Pairing = Pairing(left: nat, right: Option<nat>)

  /**
   * A pairing pandas makes: the right row has the left row's key, or, when no
   * right row has it, there is no right row.
   */
  predicate Paired(l: Table, r: Table, key: string, pr: Pairing) {
    && pr.left < |l.rows| && key in l.rows[pr.left]
    && match pr.right
       case Some(m) => m < |r.rows| && key in r.rows[m] && r.rows[m][key] == l.rows[pr.left][key]
       case None => forall m :: 0 <= m < |r.rows| ==> !(key in r.rows[m] && r.rows[m][key] == l.rows[pr.left][key])
  }

  /** Pairings in the order pandas emits them: by left row, then by right row. */
  predicate PairBefore(a: Pairing, b: Pairing) {
    a.left < b.left || (a.left == b.left && a.right.Some? && b.right.Some? && a.right.value < b.right.value)
  }

  /** The pairings of left row `j`: one per matching right row, or one without a right row. */
  function BlockPairings(j: nat, ms: seq<nat>): (b: seq<Pairing>)
    ensures |b| >= 1
    ensures forall p :: 0 <= p < |b| ==> b[p].left == j
    ensures ms == [] ==> b == [Pairing(j, None)]
    ensures ms != [] ==> |b| == |ms| && forall p :: 0 <= p < |b| ==> b[p] == Pairing(j, Some(ms[p]))
  {
    if ms == [] then [Pairing(j, None)]
    else seq(|ms|, i requires 0 <= i < |ms| => Pairing(j, Some(ms[i])))
  }

  /** Every pairing in `ps` is one pandas makes, of a left row from `j` on. */
  predicate AllPaired(l: Table, r: Table, key: string, j: nat, ps: seq<Pairing>) {
    forall p :: 0 <= p < |ps| ==> j <= ps[p].left && Paired(l, r, key, ps[p])
  }

  /** The pairings are in the order pandas emits them. */
  predicate InOrder(ps: seq<Pairing>) {
    forall p, q :: 0 <= p < q < |ps| ==> PairBefore(ps[p], ps[q])
  }

  /** The pairings of left row `j` are made by pandas and in order. */
  lemma BlockPaired(l: Table, r: Table, key: string, j: nat)
    requires j < |l.rows| && key in l.rows[j]
    ensures var b := BlockPairings(j, MatchIndices(r.rows, key, l.rows[j][key], 0));
      AllPaired(l, r, key, j, b) && InOrder(b)
  {
    var ms := MatchIndices(r.rows, key, l.rows[j][key], 0);
    var b := BlockPairings(j, ms);
    forall p | 0 <= p < |b| ensures j <= b[p].left && Paired(l, r, key, b[p]) {
      if ms != [] {
        assert b[p] == Pairing(j, Some(ms[p]));
      }
    }
    forall p, q | 0 <= p < q < |b| ensures PairBefore(b[p], b[q]) {
      assert b[p] == Pairing(j, Some(ms[p])) && b[q] == Pairing(j, Some(ms[q]));
    }
  }

  /** The block of row `j` followed by the pairings of later rows keeps both properties. */
  lemma BlockThenRest(l: Table, r: Table, key: string, j: nat, b: seq<Pairing>, rest: seq<Pairing>)
    requires forall p :: 0 <= p < |b| ==> b[p].left == j
    requires AllPaired(l, r, key, j, b) && InOrder(b)
    requires AllPaired(l, r, key, j + 1, rest) && InOrder(rest)
    ensures AllPaired(l, r, key, j, b + rest) && InOrder(b + rest)
  {
    var ps := b + rest;
    forall p | 0 <= p < |ps| ensures j <= ps[p].left && Paired(l, r, key, ps[p]) {
      if p >= |b| {
        assert ps[p] == rest[p - |b|];
      }
    }
    forall p, q | 0 <= p < q < |ps| ensures PairBefore(ps[p], ps[q]) {
      if q < |b| {
        assert ps[p] == b[p] && ps[q] == b[q];
      } else if p < |b| {
        assert ps[p] == b[p] && ps[q] == rest[q - |b|];
      } else {
        assert ps[p] == rest[p - |b|] && ps[q] == rest[q - |b|];
      }
    }
  }

  /** The pairings of left rows `j..`, in the order of the merge result. */
  function Pairings(l: Table, r: Table, key: string, j: nat): (ps: seq<Pairing>)
    requires j <= |l.rows|
    requires forall i :: 0 <= i < |l.rows| ==> key in l.rows[i]
    ensures AllPaired(l, r, key, j, ps) && InOrder(ps)
    decreases |l.rows| - j
  {
    if j == |l.rows| then []
    else
      var b := BlockPairings(j, MatchIndices(r.rows, key, l.rows[j][key], 0));
      var rest := Pairings(l, r, key, j + 1);
      BlockPaired(l, r, key, j);
      BlockThenRest(l, r, key, j, b, rest);
      b + rest
  }

  /** Some pairing in `ps` is of left row `i`. */
  predicate Covers(ps: seq<Pairing>, i: nat) {
    exists p :: 0 <= p < |ps| && ps[p].left == i
  }

  /** Every left row from `j` on has a pairing. */
  lemma {:induction false} PairingsCoverLeft(l: Table, r: Table, key: string, j: nat)
    requires j <= |l.rows|
    requires forall i :: 0 <= i < |l.rows| ==> key in l.rows[i]
    ensures forall i :: j <= i < |l.rows| ==> Covers(Pairings(l, r, key, j), i)
    decreases |l.rows| - j
  {
    if j < |l.rows| {
      var b := BlockPairings(j, MatchIndices(r.rows, key, l.rows[j][key], 0));
      var rest := Pairings(l, r, key, j + 1);
      var ps := Pairings(l, r, key, j);
      assert ps == b + rest;
      PairingsCoverLeft(l, r, key, j + 1);
      forall i | j <= i < |l.rows| ensures Covers(ps, i) {
        if i == j {
          assert ps[0] == b[0];
        } else {
          assert Covers(rest, i);
          var p :| 0 <= p < |rest| && rest[p].left == i;
          assert ps[|b| + p] == rest[p];
        }
      }
    }
  }

  /** Every right row with the key of a left row from `j` on is paired with it. */
  lemma {:induction false} PairingsCoverMatches(l: Table, r: Table, key: string, j: nat)
    requires j <= |l.rows|
    requires forall i :: 0 <= i < |l.rows| ==> key in l.rows[i]
    ensures forall i, m :: j <= i < |l.rows| && 0 <= m < |r.rows| && key in r.rows[m] && r.rows[m][key] == l.rows[i][key] ==>
              Pairing(i, Some(m)) in Pairings(l, r, key, j)
    decreases |l.rows| - j
  {
    if j < |l.rows| {
      var ms := MatchIndices(r.rows, key, l.rows[j][key], 0);
      var b := BlockPairings(j, ms);
      var rest := Pairings(l, r, key, j + 1);
      var ps := Pairings(l, r, key, j);
      assert ps == b + rest;
      PairingsCoverMatches(l, r, key, j + 1);
      forall i, m | j <= i < |l.rows| && 0 <= m < |r.rows| && key in r.rows[m] && r.rows[m][key] == l.rows[i][key]
        ensures Pairing(i, Some(m)) in ps
      {
        if i == j {
          assert m in ms;
          var k :| 0 <= k < |ms| && ms[k] == m;
          assert b[k] == Pairing(i, Some(m));
          assert ps[k] == b[k];
        } else {
          assert Pairing(i, Some(m)) in rest;
        }
      }
    }
  }

  /** The result row of one pairing. */
  function PairedRow(l: Table, r: Table, key: string, pr: Pairing): (o: Row)
    requires Joinable(l, r, key) && pr.left < |l.rows|
    requires pr.right.Some? ==> pr.right.value < |r.rows|
    ensures o.Keys == ColumnSet(JoinColumns(l, r, key))
  {
    JoinRow(l, r, key, l.rows[pr.left], if pr.right.Some? then Some(r.rows[pr.right.value]) else None)
  }

  function JoinRows(l: Table, r: Table, key: string): (out: seq<Row>)
    requires Joinable(l, r, key)
    ensures |out| == |Pairings(l, r, key, 0)|
    ensures forall p :: 0 <= p < |out| ==> out[p].Keys == ColumnSet(JoinColumns(l, r, key))
  {
    var ps := Pairings(l, r, key, 0);
    seq(|ps|, p requires 0 <= p < |ps| => PairedRow(l, r, key, ps[p]))
  }

  /**
   * `pd.merge(l, r, on=key, how="left")`: one row per pairing, in pairing order.
   * KeyError without the key on either side; MergeError when the suffixed
   * labels collide.
   */
  function LeftJoin(l: Table, r: Table, key: string): (res: Result<Table, Exception>)
    requires WellFormed(l) && WellFormed(r)
    ensures res.Ok? <==> Joinable(l, r, key)
    ensures res.Ok? ==> WellFormed(res.value) && res.value.columns == JoinColumns(l, r, key)
    ensures res.Err? ==> res.error == (if key in l.columns && key in r.columns then MergeError else KeyError(key))
  {
    if key !in l.columns then Err(KeyError(key))
    else if key !in r.columns then Err(KeyError(key))
    else if !Distinct(JoinColumns(l, r, key)) then Err(MergeError)
    else Ok(Table(JoinColumns(l, r, key), JoinRows(l, r, key)))
  }

  /** `o` holds every cell of left row `lrow` under the cell's merge label. */
  predicate FromLeft(l: Table, r: Table, key: string, o: Row, lrow: Row) {
    forall c :: c in l.columns ==> c in lrow && Suffixed(c, Overlap(l, r, key), "_x") in o
                                   && o[Suffixed(c, Overlap(l, r, key), "_x")] == lrow[c]
  }

  /** `o` holds every non-key cell of right row `rrow` under the cell's merge label. */
  predicate FromRight(l: Table, r: Table, key: string, o: Row, rrow: Row) {
    forall c :: c in Without(r.columns, key) ==> c in rrow && Suffixed(c, Overlap(l, r, key), "_y") in o
                                                 && o[Suffixed(c, Overlap(l, r, key), "_y")] == rrow[c]
  }

  /** Every right-hand cell of `o` is missing. */
  predicate RightMissing(l: Table, r: Table, key: string, o: Row) {
    forall c :: c in Without(r.columns, key) ==> Suffixed(c, Overlap(l, r, key), "_y") in o
                                                 && o[Suffixed(c, Overlap(l, r, key), "_y")] == None
  }

  /** The cells of `o` are those of the two rows pairing `pr` combines. */
  predicate Combines(l: Table, r: Table, key: string, o: Row, pr: Pairing)
    requires pr.left < |l.rows| && (pr.right.Some? ==> pr.right.value < |r.rows|)
  {
    && FromLeft(l, r, key, o, l.rows[pr.left])
    && (pr.right.Some? ==> FromRight(l, r, key, o, r.rows[pr.right.value]))
    && (pr.right.None? ==> RightMissing(l, r, key, o))
  }

  lemma JoinRowParts(l: Table, r: Table, key: string, lrow: Row, rrow: Option<Row>)
    requires Joinable(l, r, key)
    requires lrow.Keys == ColumnSet(l.columns)
    requires rrow.Some? ==> rrow.value.Keys == ColumnSet(r.columns)
    ensures FromLeft(l, r, key, JoinRow(l, r, key, lrow, rrow), lrow)
    ensures rrow.Some? ==> FromRight(l, r, key, JoinRow(l, r, key, lrow, rrow), rrow.value)
    ensures rrow.None? ==> RightMissing(l, r, key, JoinRow(l, r, key, lrow, rrow))
  {
    JoinableParts(l, r, key);
    var ov := Overlap(l, r, key);
    var rest := Without(r.columns, key);
    var left := Relabel(lrow, l.columns, ov, "_x");
    var right := if rrow.Some? then Relabel(rrow.value, rest, ov, "_y") else MissingRelabel(rest, ov, "_y");
    var o := JoinRow(l, r, key, lrow, rrow);
    assert o == left + right;
    forall c | c in l.columns
      ensures Suffixed(c, ov, "_x") in o && o[Suffixed(c, ov, "_x")] == lrow[c]
    {
      var i :| 0 <= i < |l.columns| && l.columns[i] == c;
      assert SuffixedAll(l.columns, ov, "_x")[i] == Suffixed(c, ov, "_x");
      assert Suffixed(c, ov, "_x") in left.Keys;
      assert Suffixed(c, ov, "_x") !in right.Keys;
    }
    forall c | c in rest
      ensures Suffixed(c, ov, "_y") in o && Suffixed(c, ov, "_y") in right
      ensures o[Suffixed(c, ov, "_y")] == right[Suffixed(c, ov, "_y")]
    {
      var i :| 0 <= i < |rest| && rest[i] == c;
      assert SuffixedAll(rest, ov, "_y")[i] == Suffixed(c, ov, "_y");
    }
  }

  /**
   * What a left merge keeps: result row `p` combines the cells of the left row
   * and the right row (or missing right-hand cells) of the `p`-th pairing.
   */
  lemma LeftJoinRows(l: Table, r: Table, key: string)
    requires WellFormed(l) && WellFormed(r) && LeftJoin(l, r, key).Ok?
    ensures |LeftJoin(l, r, key).value.rows| == |Pairings(l, r, key, 0)|
    ensures forall p :: 0 <= p < |Pairings(l, r, key, 0)| ==>
              Combines(l, r, key, LeftJoin(l, r, key).value.rows[p], Pairings(l, r, key, 0)[p])
  {
    var ps := Pairings(l, r, key, 0);
    var out := LeftJoin(l, r, key).value.rows;
    forall p | 0 <= p < |ps| ensures Combines(l, r, key, out[p], ps[p]) {
      var pr := ps[p];
      assert Paired(l, r, key, pr);
      assert out[p] == PairedRow(l, r, key, pr);
      JoinRowParts(l, r, key, l.rows[pr.left], if pr.right.Some? then Some(r.rows[pr.right.value]) else None);
    }
  }

  /** Result row `p` has the key cell of the left row of the `p`-th pairing. */
  lemma JoinKeyCell(l: Table, r: Table, key: string, p: nat)
    requires WellFormed(l) && WellFormed(r) && LeftJoin(l, r, key).Ok?
    requires p < |Pairings(l, r, key, 0)|
    ensures key in LeftJoin(l, r, key).value.rows[p]
    ensures LeftJoin(l, r, key).value.rows[p][key] == l.rows[Pairings(l, r, key, 0)[p].left][key]
  {
    var pr := Pairings(l, r, key, 0)[p];
    var o := LeftJoin(l, r, key).value.rows[p];
    assert Paired(l, r, key, pr);
    LeftJoinRows(l, r, key);
    assert FromLeft(l, r, key, o, l.rows[pr.left]);
    assert Suffixed(key, Overlap(l, r, key), "_x") == key;
    assert key in l.columns;
  }

  /** The key column keeps its label, so a left merge has exactly the left frame's keys. */
  lemma LeftJoinKeys(l: Table, r: Table, key: string)
    requires WellFormed(l) && WellFormed(r) && LeftJoin(l, r, key).Ok?
    ensures ColumnValues(LeftJoin(l, r, key).value, key) == ColumnValues(l, key)
  {
    forall x | x in ColumnValues(LeftJoin(l, r, key).value, key) ensures x in ColumnValues(l, key) {
      JoinKeyFromLeft(l, r, key, x);
    }
    forall x | x in ColumnValues(l, key) ensures x in ColumnValues(LeftJoin(l, r, key).value, key) {
      LeftKeyJoined(l, r, key, x);
    }
  }

  /** A key cell of the merge is a key cell of the left frame. */
  lemma JoinKeyFromLeft(l: Table, r: Table, key: string, x: Cell)
    requires WellFormed(l) && WellFormed(r) && LeftJoin(l, r, key).Ok?
    requires x in ColumnValues(LeftJoin(l, r, key).value, key)
    ensures x in ColumnValues(l, key)
  {
    var out := LeftJoin(l, r, key).value;
    var ps := Pairings(l, r, key, 0);
    var p :| 0 <= p < |out.rows| && key in out.rows[p] && out.rows[p][key] == x;
    JoinKeyCell(l, r, key, p);
    assert l.rows[ps[p].left][key] == x;
  }

  /** A key cell of the left frame is a key cell of the merge. */
  lemma LeftKeyJoined(l: Table, r: Table, key: string, x: Cell)
    requires WellFormed(l) && WellFormed(r) && LeftJoin(l, r, key).Ok?
    requires x in ColumnValues(l, key)
    ensures x in ColumnValues(LeftJoin(l, r, key).value, key)
  {
    var ps := Pairings(l, r, key, 0);
    var j :| 0 <= j < |l.rows| && key in l.rows[j] && l.rows[j][key] == x;
    PairingsCoverLeft(l, r, key, 0);
    assert Covers(ps, j);
    var p :| 0 <= p < |ps| && ps[p].left == j;
    JoinKeyCell(l, r, key, p);
  }

  // ---------------------------------------------------------------------------
  // The frame the scripts change in place
  // ---------------------------------------------------------------------------

  class Frame {
    var columns: seq<string>
    var rows: seq<Row>

    function Snapshot(): Table
      reads this
    {
      Table(columns, rows)
    }

    ghost predicate Valid()
      reads this
    {
      WellFormed(Snapshot())
    }

    /** `pd.read_csv(...)`: the frame as read. */
    constructor (t: Table)
      requires WellFormed(t)
      ensures Valid() && Snapshot() == t
    {
      columns := t.columns;
      rows := t.rows;
    }

    /** `df.at[i, col]` */
    method Get(i: nat, col: string) returns (r: Result<Cell, Exception>)
      requires Valid() && i < |rows|
      ensures r.Ok? <==> col in columns
      ensures r.Ok? ==> r.value == rows[i][col]
      ensures r == CellAt(Snapshot(), i, col)
    {
      if col in columns {
        r := Ok(rows[i][col]);
      } else {
        r := Err(KeyError(col));
      }
    }

    /** `df.at[i, col] = x` */
    method Put(i: nat, col: string, x: Cell)
      requires Valid() && i < |rows|
      modifies this
      ensures Valid() && Snapshot() == WithCell(old(Snapshot()), i, col, x)
    {
      var t := WithCell(Snapshot(), i, col, x);
      columns, rows := t.columns, t.rows;
    }

    /** `df[col] = x` */
    method Assign(col: string, x: Cell)
      requires Valid()
      modifies this
      ensures Valid() && Snapshot() == WithColumn(old(Snapshot()), col, x)
    {
      var t := WithColumn(Snapshot(), col, x);
      columns, rows := t.columns, t.rows;
    }

    /** `df.rename(columns={from: to}, inplace=True)` */
    method Rename(from: string, to: string)
      requires Valid()
      requires from in columns && from != to ==> to !in columns
      modifies this
      ensures Valid() && Snapshot() == Renamed(old(Snapshot()), from, to)
    {
      var t := Renamed(Snapshot(), from, to);
      columns, rows := t.columns, t.rows;
    }

    /** `df[col] = df[col].str.strip()`; the frame is unchanged when it raises. */
    method StripColumn(col: string) returns (r: Result<(), Exception>)
      requires Valid()
      modifies this
      ensures Valid()
      ensures r.Ok? <==> col in old(columns)
      ensures StrippedColumn(old(Snapshot()), col).Ok? ==> Snapshot() == StrippedColumn(old(Snapshot()), col).value
      ensures r.Err? ==> r.error == KeyError(col) && Snapshot() == old(Snapshot())
    {
      var t := StrippedColumn(Snapshot(), col);
      if t.Ok? {
        columns, rows := t.value.columns, t.value.rows;
        r := Ok(());
      } else {
        r := Err(t.error);
      }
    }

    /** `df.replace(target, np.nan, inplace=True)` */
    method Replace(target: Value)
      requires Valid()
      modifies this
      ensures Valid() && Snapshot() == Scrubbed(old(Snapshot()), target)
    {
      var t := Scrubbed(Snapshot(), target);
      columns, rows := t.columns, t.rows;
    }
  }
}
