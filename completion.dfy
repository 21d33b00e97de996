/**
 * The sample completer of au_code_3teste.py: a walk over the rows of the
 * sample table that fills, in place, the catalog fields a row lacks. For each
 * row the HyperLeda page and the NED coordinates are inputs (one outcome per
 * row), and so is the conversion of a distance modulus to megaparsecs.
 *
 * The variables the search loops assign (`v`, `logd25`, `logr25`, `pa`,
 * `d0`) live at module level in the script, so they keep their value from one
 * row to the next; the model threads them through the walk as a map from
 * variable name to text. A lookup that finds no row leaves the variable as it
 * was: the cell gets the value some earlier galaxy left there, or NameError
 * when no galaxy ever bound it.
 */
module SampleCompletion {
  import opened Wrappers
  import opened Frames
  import opened Collectors
  import PyText

  const RaCol: string := "RA_NED"
  const DecCol: string := "DEC_NED"
  const VCol: string := "V_r [km/s]"
  const Logd25Col: string := "logd25"
  const Logr25Col: string := "logr25"
  const PaCol: string := "PA [degree]"
  const DCol: string := "D [Mpc]"

  /** The script's module-level variables that outlive a row. */
  type Globals = map<string, string>

  /** Where a row's processing stands: the table, the variables, and the exception that ended the row, if any. */
  datatype Progress = Progress(table: Table, globals: Globals, failure: Option<Exception>)

  /**
   * The outcome of `get_object_coordinates(name)`: `Ok(Some((ra, dec)))`,
   * `Ok(None)` for its `(None, None)` when the lookup inside its `try` fails,
   * or the exception of starting the driver, which comes before that `try`.
   */
  type Located = Result<Option<(string, string)>, Exception>

  /** The fields a row is completed with, in the script's order. */
  datatype Field =
    | Catalog(col: string, heading: string)
    | Coordinates
    | Distance

  const VField: Field := Catalog(VCol, "v")
  const CoordinatesField: Field := Coordinates
  const Logd25Field: Field := Catalog(Logd25Col, "logd25")
  const Logr25Field: Field := Catalog(Logr25Col, "logr25")
  const PaField: Field := Catalog(PaCol, "pa")
  const DistanceField: Field := Distance
  const Fields: seq<Field> := [VField, CoordinatesField, Logd25Field, Logr25Field, PaField, DistanceField]
  /** The first two blocks of the row body, and the next three. */
  const Kinematics: seq<Field> := [VField, CoordinatesField]
  const Shape: seq<Field> := [Logd25Field, Logr25Field, PaField]

  /** The columns that are filled only when absent. */
  const Protected: set<string> := {VCol, Logd25Col, Logr25Col, PaCol, DCol}

  /** The coordinate pair, the only columns a row may overwrite. */
  const Rewritten: set<string> := {RaCol, DecCol}

  /** The column labels the walk writes, together with `Name`, are all different. */
  lemma LabelsDiffer()
    ensures "Name" != RaCol && "Name" != DecCol && "Name" != VCol && "Name" != Logd25Col
    ensures "Name" != Logr25Col && "Name" != PaCol && "Name" != DCol
    ensures RaCol != DecCol && RaCol !in Protected && DecCol !in Protected
  {
  }

  // ---------------------------------------------------------------------------
  // Which cells a step may change
  // ---------------------------------------------------------------------------

  /**
   * `u` differs from `t` at most in the cells of row `i` in `cols`; a column
   * it adds is one of `cols` and is missing in every other row.
   */
  predicate Touches(t: Table, u: Table, i: nat, cols: set<string>) {
    && WellFormed(t) && WellFormed(u) && |u.rows| == |t.rows|
    && ColumnsGrow(t, u, cols) && CellsKept(t, u, i, cols) && NewMissing(t, u, i)
  }

  predicate ColumnsGrow(t: Table, u: Table, cols: set<string>) {
    && (forall c :: c in t.columns ==> c in u.columns)
    && (forall c :: c in u.columns && c !in t.columns ==> c in cols)
  }

  predicate CellsKept(t: Table, u: Table, i: nat, cols: set<string>)
    requires WellFormed(t) && WellFormed(u) && |u.rows| == |t.rows|
    requires forall c :: c in t.columns ==> c in u.columns
  {
    forall k, c :: 0 <= k < |t.rows| && c in t.columns && (k != i || c !in cols) ==> u.rows[k][c] == t.rows[k][c]
  }

  predicate NewMissing(t: Table, u: Table, i: nat)
    requires WellFormed(u) && |u.rows| == |t.rows|
  {
    forall k, c :: 0 <= k < |t.rows| && k != i && c in u.columns && c !in t.columns ==> u.rows[k][c] == None
  }

  lemma TouchesTrans(t1: Table, t2: Table, t3: Table, i: nat, a: set<string>, b: set<string>)
    requires Touches(t1, t2, i, a) && Touches(t2, t3, i, b)
    ensures Touches(t1, t3, i, a + b)
  {
    assert ColumnsGrow(t1, t3, a + b);
    CellsKeptTrans(t1, t2, t3, i, a, b);
    NewMissingTrans(t1, t2, t3, i, a, b);
  }

  lemma CellsKeptTrans(t1: Table, t2: Table, t3: Table, i: nat, a: set<string>, b: set<string>)
    requires WellFormed(t1) && WellFormed(t2) && WellFormed(t3) && |t2.rows| == |t1.rows| && |t3.rows| == |t2.rows|
    requires ColumnsGrow(t1, t2, a) && ColumnsGrow(t2, t3, b)
    requires CellsKept(t1, t2, i, a) && CellsKept(t2, t3, i, b)
    ensures CellsKept(t1, t3, i, a + b)
  {
    forall k, c | 0 <= k < |t1.rows| && c in t1.columns && (k != i || c !in a + b)
      ensures t3.rows[k][c] == t1.rows[k][c]
    {
      CellKeptTrans(t1, t2, t3, i, a, b, k, c);
    }
  }

  lemma CellKeptTrans(t1: Table, t2: Table, t3: Table, i: nat, a: set<string>, b: set<string>, k: nat, c: string)
    requires WellFormed(t1) && WellFormed(t2) && WellFormed(t3) && |t2.rows| == |t1.rows| && |t3.rows| == |t2.rows|
    requires ColumnsGrow(t1, t2, a) && ColumnsGrow(t2, t3, b)
    requires CellsKept(t1, t2, i, a) && CellsKept(t2, t3, i, b)
    requires k < |t1.rows| && c in t1.columns && (k != i || c !in a + b)
    ensures c in t3.columns && t3.rows[k][c] == t1.rows[k][c]
  {
    assert c in t2.columns;
    assert t2.rows[k][c] == t1.rows[k][c];
  }

  lemma NewMissingTrans(t1: Table, t2: Table, t3: Table, i: nat, a: set<string>, b: set<string>)
    requires Touches(t1, t2, i, a) && Touches(t2, t3, i, b)
    ensures NewMissing(t1, t3, i)
  {
    forall k, c | 0 <= k < |t1.rows| && k != i && c in t3.columns && c !in t1.columns
      ensures t3.rows[k][c] == None
    {
      if c in t2.columns {
        assert t2.rows[k][c] == None;
      }
    }
  }

  lemma KeptCell(t: Table, u: Table, i: nat, cols: set<string>, k: nat, c: string)
    requires Touches(t, u, i, cols) && k < |t.rows| && c in t.columns && (k != i || c !in cols)
    ensures c in u.columns && u.rows[k][c] == t.rows[k][c]
  {
  }

  lemma TouchesSelf(t: Table, i: nat, cols: set<string>)
    requires WellFormed(t)
    ensures Touches(t, t, i, cols)
  {
  }

  lemma WithCellTouches(t: Table, i: nat, col: string, x: Cell)
    requires WellFormed(t) && i < |t.rows|
    ensures Touches(t, WithCell(t, i, col, x), i, {col})
  {
  }

  // ---------------------------------------------------------------------------
  // One field of one row
  // ---------------------------------------------------------------------------

  /**
   * The search loop over the page's rows: the first row labelled `heading`
   * assigns the first token of its value cell to `variable` and ends the
   * loop; IndexError when that cell has no token; no labelled row leaves the
   * variables as they were.
   */
  function Lookup(rows: HtmlTable, heading: string, variable: string, g: Globals): (r: Result<Globals, Exception>)
    ensures r.Err? ==> r.error == IndexError
    ensures r.Ok? ==> r.value.Keys == g.Keys + (if FirstMatch(rows, heading).Some? then {variable} else {})
  {
    match FirstMatch(rows, heading)
    case None => Ok(g)
    case Some(k) =>
      match CellToken(rows[k])
      case None => Err(IndexError)
      case Some(tok) => Ok(g[variable := tok])
  }

  /**
   * What the search binds: with no labelled row the variables stay as they
   * were; otherwise the first labelled row's token is bound to `variable`,
   * or the search fails with IndexError when that row has no token.
   */
  lemma LookupBinds(rows: HtmlTable, heading: string, variable: string, g: Globals)
    ensures FirstMatch(rows, heading).None? ==> Lookup(rows, heading, variable, g) == Ok(g)
    ensures FirstMatch(rows, heading).Some? ==>
      var tok := CellToken(rows[FirstMatch(rows, heading).value]);
      Lookup(rows, heading, variable, g) == if tok.Some? then Ok(g[variable := tok.value]) else Err(IndexError)
  {
  }

  /** A catalog field: written, from the variable its lookup assigns, only when absent. */
  function CatalogStep(t: Table, g: Globals, i: nat, col: string, heading: string, rows: HtmlTable): (p: Progress)
    requires WellFormed(t) && i < |t.rows|
    ensures Touches(t, p.table, i, {col}) && p.table.columns == t.columns
  {
    match CellAt(t, i, col)
    case Err(e) => TouchesSelf(t, i, {col}); Progress(t, g, Some(e))
    case Ok(c) =>
      TouchesSelf(t, i, {col});
      if c.Some? then Progress(t, g, None)
      else match Lookup(rows, heading, heading, g)
        case Err(e) => Progress(t, g, Some(e))
        case Ok(g') =>
          if heading !in g' then Progress(t, g', Some(NameError(heading)))
          else
            WithCellTouches(t, i, col, Some(Text(g'[heading])));
            Progress(WithCell(t, i, col, Some(Text(g'[heading]))), g', None)
  }

  /** The coordinate pair written back, `(None, None)` when the lookup failed. */
  function WritePair(t: Table, i: nat, pair: Option<(string, string)>): (u: Table)
    requires WellFormed(t) && i < |t.rows|
    ensures Touches(t, u, i, {RaCol, DecCol}) && RaCol in u.columns && DecCol in u.columns
    ensures u.rows[i][RaCol] == (if pair.Some? then Some(Text(pair.value.0)) else None)
    ensures u.rows[i][DecCol] == (if pair.Some? then Some(Text(pair.value.1)) else None)
  {
    var ra := if pair.Some? then Some(Text(pair.value.0)) else None;
    var dec := if pair.Some? then Some(Text(pair.value.1)) else None;
    var t1 := WithCell(t, i, RaCol, ra);
    WithCellTouches(t, i, RaCol, ra);
    WithCellTouches(t1, i, DecCol, dec);
    TouchesTrans(t, t1, WithCell(t1, i, DecCol, dec), i, {RaCol}, {DecCol});
    LabelsDiffer();
    assert {RaCol} + {DecCol} == {RaCol, DecCol};
    WithCell(t1, i, DecCol, dec)
  }

  /**
   * The coordinates: `DEC_NED` is read first and `RA_NED` only when the
   * declination is present; when either is absent the pair is fetched and
   * both are overwritten with it, unless starting the driver raised.
   */
  function CoordinatesStep(t: Table, g: Globals, i: nat, coord: Located): (p: Progress)
    requires WellFormed(t) && i < |t.rows|
    ensures Touches(t, p.table, i, {RaCol, DecCol}) && p.globals == g
    ensures p.failure.Some? ==>
      || p.failure.value == KeyError(DecCol)
      || p.failure.value == KeyError(RaCol)
      || (coord.Err? && p.failure.value == coord.error)
  {
    TouchesSelf(t, i, {RaCol, DecCol});
    match CellAt(t, i, DecCol)
    case Err(e) => Progress(t, g, Some(e))
    case Ok(dec) =>
      if dec.None? then Refetch(t, g, i, coord)
      else match CellAt(t, i, RaCol)
        case Err(e) => Progress(t, g, Some(e))
        case Ok(ra) =>
          if ra.None? then Refetch(t, g, i, coord)
          else Progress(t, g, None)
  }

  /** `ra, dec = get_object_coordinates(name)` and the two writes; a failed driver start writes nothing. */
  function Refetch(t: Table, g: Globals, i: nat, coord: Located): (p: Progress)
    requires WellFormed(t) && i < |t.rows|
    ensures Touches(t, p.table, i, {RaCol, DecCol}) && p.globals == g
  {
    match coord
    case Err(e) => TouchesSelf(t, i, {RaCol, DecCol}); Progress(t, g, Some(e))
    case Ok(pair) => Progress(WritePair(t, i, pair), g, None)
  }

  /**
   * The distance: written only when absent, from `d0`, the `modbest` token;
   * `toMpc` is `float` followed by `10 ** ((d - 25) / 5)`, and `None` when
   * `float` raises.
   */
  function DistanceStep(t: Table, g: Globals, i: nat, rows: HtmlTable, toMpc: string -> Option<real>): (p: Progress)
    requires WellFormed(t) && i < |t.rows|
    ensures Touches(t, p.table, i, {DCol}) && p.table.columns == t.columns
  {
    TouchesSelf(t, i, {DCol});
    match CellAt(t, i, DCol)
    case Err(e) => Progress(t, g, Some(e))
    case Ok(c) =>
      if c.Some? then Progress(t, g, None)
      else match Lookup(rows, "modbest", "d0", g)
        case Err(e) => Progress(t, g, Some(e))
        case Ok(g') =>
          if "d0" !in g' then Progress(t, g', Some(NameError("d0")))
          else match toMpc(g'["d0"])
            case None => Progress(t, g', Some(ValueError))
            case Some(d) =>
              WithCellTouches(t, i, DCol, Some(Number(d)));
              Progress(WithCell(t, i, DCol, Some(Number(d))), g', None)
  }

  /** The cells a field may write. */
  function Writes(f: Field): set<string> {
    match f
    case Catalog(col, _) => {col}
    case Coordinates => {RaCol, DecCol}
    case Distance => {DCol}
  }

  function WritesOf(fs: seq<Field>): set<string> {
    if fs == [] then {} else Writes(fs[0]) + WritesOf(fs[1..])
  }

  function StepOf(f: Field, t: Table, g: Globals, i: nat, rows: HtmlTable, coord: Located,
                  toMpc: string -> Option<real>): (p: Progress)
    requires WellFormed(t) && i < |t.rows|
    ensures Touches(t, p.table, i, Writes(f))
  {
    match f
    case Catalog(col, heading) => CatalogStep(t, g, i, col, heading, rows)
    case Coordinates => CoordinatesStep(t, g, i, coord)
    case Distance => DistanceStep(t, g, i, rows, toMpc)
  }

  /** The fields in order; the first exception ends the row, keeping what was already written. */
  function StepsFrom(fs: seq<Field>, t: Table, g: Globals, i: nat, rows: HtmlTable, coord: Located,
                     toMpc: string -> Option<real>): (p: Progress)
    requires WellFormed(t) && i < |t.rows|
    ensures WellFormed(p.table) && |p.table.rows| == |t.rows|
    decreases |fs|
  {
    if fs == [] then Progress(t, g, None)
    else
      var p := StepOf(fs[0], t, g, i, rows, coord, toMpc);
      if p.failure.Some? then p else StepsFrom(fs[1..], p.table, p.globals, i, rows, coord, toMpc)
  }

  /** The fields change only the cells of row `i` they own. */
  lemma {:induction false} StepsTouch(fs: seq<Field>, t: Table, g: Globals, i: nat, rows: HtmlTable,
                                      coord: Located, toMpc: string -> Option<real>)
    requires WellFormed(t) && i < |t.rows|
    ensures Touches(t, StepsFrom(fs, t, g, i, rows, coord, toMpc).table, i, WritesOf(fs))
    decreases |fs|
  {
    if fs == [] {
      TouchesSelf(t, i, {});
    } else {
      var p := StepOf(fs[0], t, g, i, rows, coord, toMpc);
      if p.failure.Some? {
        TouchesSelf(p.table, i, WritesOf(fs[1..]));
        TouchesTrans(t, p.table, p.table, i, Writes(fs[0]), WritesOf(fs[1..]));
      } else {
        StepsTouch(fs[1..], p.table, p.globals, i, rows, coord, toMpc);
        var q := StepsFrom(fs[1..], p.table, p.globals, i, rows, coord, toMpc);
        TouchesTrans(t, p.table, q.table, i, Writes(fs[0]), WritesOf(fs[1..]));
      }
    }
  }

  /**
   * The body of the `try` for row `i`: the page fetch, then the fields `fs`
   * (the script's are `Fields`).
   */
  function RowStep(fs: seq<Field>, t: Table, g: Globals, i: nat, page: Result<HtmlTable, Exception>,
                   coord: Located, toMpc: string -> Option<real>): (p: Progress)
    requires WellFormed(t) && i < |t.rows|
    ensures WellFormed(p.table) && |p.table.rows| == |t.rows|
  {
    match page
    case Err(e) => Progress(t, g, Some(e))
    case Ok(rows) => StepsFrom(fs, t, g, i, rows, coord, toMpc)
  }

  /** Processing row `i` changes no other row, and in row `i` only the cells its fields own. */
  lemma RowTouches(fs: seq<Field>, t: Table, g: Globals, i: nat, page: Result<HtmlTable, Exception>,
                   coord: Located, toMpc: string -> Option<real>)
    requires WellFormed(t) && i < |t.rows|
    ensures Touches(t, RowStep(fs, t, g, i, page, coord, toMpc).table, i, WritesOf(fs))
  {
    if page.Err? {
      TouchesSelf(t, i, WritesOf(fs));
    } else {
      StepsTouch(fs, t, g, i, page.value, coord, toMpc);
    }
  }

  // ---------------------------------------------------------------------------
  // The walk over the rows
  // ---------------------------------------------------------------------------

  datatype Walk = Walk(table: Table, globals: Globals)

  /** The table and variables after the first `n` rows; an exception only ends its own row. */
  function Sweep(fs: seq<Field>, t: Table, n: nat, pages: seq<Result<HtmlTable, Exception>>, coords: seq<Located>,
                 toMpc: string -> Option<real>): (w: Walk)
    requires WellFormed(t) && n <= |t.rows| && |pages| == |coords| == |t.rows|
    ensures WellFormed(w.table) && |w.table.rows| == |t.rows|
    decreases n, 1
  {
    if n == 0 then Walk(t, map[]) else Advance(fs, t, n, pages, coords, toMpc)
  }

  /** The walk after the first `n - 1` rows, followed by row `n - 1`. */
  function Advance(fs: seq<Field>, t: Table, n: nat, pages: seq<Result<HtmlTable, Exception>>, coords: seq<Located>,
                   toMpc: string -> Option<real>): (w: Walk)
    requires WellFormed(t) && 0 < n <= |t.rows| && |pages| == |coords| == |t.rows|
    ensures WellFormed(w.table) && |w.table.rows| == |t.rows|
    decreases n, 0
  {
    var w := Sweep(fs, t, n - 1, pages, coords, toMpc);
    var p := RowStep(fs, w.table, w.globals, n - 1, pages[n - 1], coords[n - 1], toMpc);
    Walk(p.table, p.globals)
  }

  /** One more row of the walk, from the table `w` after `n - 1` rows to the table `u` after `n`. */
  lemma SweepNext(fs: seq<Field>, t: Table, n: nat, pages: seq<Result<HtmlTable, Exception>>, coords: seq<Located>,
                  toMpc: string -> Option<real>, w: Table, u: Table)
    requires WellFormed(t) && 0 < n <= |t.rows| && |pages| == |coords| == |t.rows|
    requires w == Sweep(fs, t, n - 1, pages, coords, toMpc).table && u == Sweep(fs, t, n, pages, coords, toMpc).table
    ensures WellFormed(w) && n - 1 < |w.rows|
    ensures u == RowStep(fs, w, Sweep(fs, t, n - 1, pages, coords, toMpc).globals, n - 1, pages[n - 1], coords[n - 1], toMpc).table
  {
  }

  /** The whole walk. */
  function Completion(t: Table, pages: seq<Result<HtmlTable, Exception>>, coords: seq<Located>,
                      toMpc: string -> Option<real>): (r: Table)
    requires WellFormed(t) && |pages| == |coords| == |t.rows|
    ensures WellFormed(r) && |r.rows| == |t.rows|
  {
    Sweep(Fields, t, |t.rows|, pages, coords, toMpc).table
  }

  // ---------------------------------------------------------------------------
  // What one field does
  // ---------------------------------------------------------------------------

  /**
   * An absent catalog field takes the token of the FIRST row labelled with its
   * heading; with no such row it takes whatever an earlier galaxy left in the
   * variable, or raises NameError when none did.
   */
  lemma CatalogFill(t: Table, g: Globals, i: nat, col: string, heading: string, rows: HtmlTable)
    requires WellFormed(t) && i < |t.rows| && col in t.columns && t.rows[i][col] == None
    ensures var p := CatalogStep(t, g, i, col, heading, rows);
      && (FirstMatch(rows, heading).Some? && CellToken(rows[FirstMatch(rows, heading).value]).Some? ==>
            var tok := CellToken(rows[FirstMatch(rows, heading).value]).value;
            p.failure.None? && p.table.rows[i][col] == Some(Text(tok)) && p.globals == g[heading := tok])
      && (FirstMatch(rows, heading).Some? && CellToken(rows[FirstMatch(rows, heading).value]).None? ==>
            p == Progress(t, g, Some(IndexError)))
      && (FirstMatch(rows, heading).None? && heading in g ==>
            p.failure.None? && p.table.rows[i][col] == Some(Text(g[heading])) && p.globals == g)
      && (FirstMatch(rows, heading).None? && heading !in g ==> p == Progress(t, g, Some(NameError(heading))))
  {
  }

  /** A present catalog field is left as it is, and nothing else happens. */
  lemma CatalogKeeps(t: Table, g: Globals, i: nat, col: string, heading: string, rows: HtmlTable)
    requires WellFormed(t) && i < |t.rows| && col in t.columns && t.rows[i][col].Some?
    ensures CatalogStep(t, g, i, col, heading, rows) == Progress(t, g, None)
  {
  }

  /**
   * When either coordinate is absent both are overwritten with the fetched
   * pair, or both with `None` when the lookup failed; when starting the
   * driver raised, the row ends with that exception and nothing is written.
   */
  lemma CoordinatesPair(t: Table, g: Globals, i: nat, coord: Located)
    requires WellFormed(t) && i < |t.rows| && DecCol in t.columns
    requires t.rows[i][DecCol] == None || (RaCol in t.columns && t.rows[i][RaCol] == None)
    ensures var p := CoordinatesStep(t, g, i, coord);
      coord.Err? ==> p == Progress(t, g, Some(coord.error))
    ensures var p := CoordinatesStep(t, g, i, coord);
      coord.Ok? ==>
        && p.failure.None? && RaCol in p.table.columns && DecCol in p.table.columns
        && p.table.rows[i][RaCol] == (if coord.value.Some? then Some(Text(coord.value.value.0)) else None)
        && p.table.rows[i][DecCol] == (if coord.value.Some? then Some(Text(coord.value.value.1)) else None)
  {
  }

  lemma CoordinatesKept(t: Table, g: Globals, i: nat, coord: Located)
    requires WellFormed(t) && i < |t.rows| && DecCol in t.columns && RaCol in t.columns
    requires t.rows[i][DecCol].Some? && t.rows[i][RaCol].Some?
    ensures CoordinatesStep(t, g, i, coord) == Progress(t, g, None)
  {
  }

  /** A present declination is lost when the right ascension is absent and the fetch fails. */
  lemma CoordinateHalfLost(t: Table, g: Globals, i: nat)
    requires WellFormed(t) && i < |t.rows| && DecCol in t.columns && RaCol in t.columns
    requires t.rows[i][DecCol].Some? && t.rows[i][RaCol] == None
    ensures var p := CoordinatesStep(t, g, i, Ok(None));
      p.failure.None? && p.table.rows[i][DecCol] == None && p.table.rows[i][DecCol] != t.rows[i][DecCol]
  {
    CoordinatesPair(t, g, i, Ok(None));
  }

  /**
   * An absent distance is `toMpc` of the `modbest` token, which `d0` keeps
   * even when the conversion raises.
   */
  lemma DistanceFill(t: Table, g: Globals, i: nat, rows: HtmlTable, toMpc: string -> Option<real>)
    requires WellFormed(t) && i < |t.rows| && DCol in t.columns && t.rows[i][DCol] == None
    requires FirstMatch(rows, "modbest").Some? && CellToken(rows[FirstMatch(rows, "modbest").value]).Some?
    ensures var m := CellToken(rows[FirstMatch(rows, "modbest").value]).value;
      var p := DistanceStep(t, g, i, rows, toMpc);
      && p.globals == g["d0" := m]
      && (toMpc(m).Some? ==> p.failure.None? && p.table.rows[i][DCol] == Some(Number(toMpc(m).value)))
      && (toMpc(m).None? ==> p.failure == Some(ValueError) && p.table == t)
  {
  }

  lemma DistanceKeeps(t: Table, g: Globals, i: nat, rows: HtmlTable, toMpc: string -> Option<real>)
    requires WellFormed(t) && i < |t.rows| && DCol in t.columns && t.rows[i][DCol].Some?
    ensures DistanceStep(t, g, i, rows, toMpc) == Progress(t, g, None)
  {
  }

  // ---------------------------------------------------------------------------
  // What one row does
  // ---------------------------------------------------------------------------

  /** Running the fields is running a prefix of them and then, unless it raised, the rest. */
  lemma {:induction false} StepsSplit(fs: seq<Field>, j: nat, t: Table, g: Globals, i: nat, rows: HtmlTable,
                                      coord: Located, toMpc: string -> Option<real>)
    requires WellFormed(t) && i < |t.rows| && j <= |fs|
    ensures var pre := StepsFrom(fs[..j], t, g, i, rows, coord, toMpc);
      StepsFrom(fs, t, g, i, rows, coord, toMpc) ==
        if pre.failure.Some? then pre else StepsFrom(fs[j..], pre.table, pre.globals, i, rows, coord, toMpc)
    decreases j
  {
    if j == 0 {
      assert fs[..0] == [] && fs[0..] == fs;
    } else {
      var p := StepOf(fs[0], t, g, i, rows, coord, toMpc);
      assert fs[..j][0] == fs[0] && fs[..j][1..] == fs[1..][..j - 1];
      if p.failure.None? {
        StepsSplit(fs[1..], j - 1, p.table, p.globals, i, rows, coord, toMpc);
        assert fs[1..][j - 1..] == fs[j..];
      }
    }
  }

  lemma {:induction false} InWritesOf(fs: seq<Field>, c: string)
    ensures c in WritesOf(fs) <==> exists k :: 0 <= k < |fs| && c in Writes(fs[k])
    decreases |fs|
  {
    if fs != [] {
      InWritesOf(fs[1..], c);
      if c in WritesOf(fs[1..]) {
        var k :| 0 <= k < |fs[1..]| && c in Writes(fs[1..][k]);
        assert c in Writes(fs[k + 1]);
      }
      if exists k :: 0 <= k < |fs| && c in Writes(fs[k]) {
        var k :| 0 <= k < |fs| && c in Writes(fs[k]);
        if k > 0 {
          assert fs[1..][k - 1] == fs[k];
        }
      }
    }
  }

  /** No column is written by two of the fields. */
  lemma FieldsApart()
    ensures forall p, q :: 0 <= p < q < |Fields| ==> Writes(Fields[p]) !! Writes(Fields[q])
  {
    LabelsDiffer();
  }

  /**
   * An exception part-way through a row keeps what the earlier fields wrote:
   * when no two fields own the same column, nothing after field `j` touches
   * the cells the first `j` fields own.
   */
  lemma KeepsEarlierWrites(fs: seq<Field>, t: Table, g: Globals, i: nat, rows: HtmlTable, coord: Located,
                           toMpc: string -> Option<real>, j: nat)
    requires WellFormed(t) && i < |t.rows| && j <= |fs|
    requires forall p, q :: 0 <= p < q < |fs| ==> Writes(fs[p]) !! Writes(fs[q])
    ensures var pre := StepsFrom(fs[..j], t, g, i, rows, coord, toMpc);
      var all := StepsFrom(fs, t, g, i, rows, coord, toMpc);
      forall c :: c in WritesOf(fs[..j]) && c in pre.table.columns ==>
        c in all.table.columns && all.table.rows[i][c] == pre.table.rows[i][c]
  {
    var pre := StepsFrom(fs[..j], t, g, i, rows, coord, toMpc);
    StepsSplit(fs, j, t, g, i, rows, coord, toMpc);
    if pre.failure.None? {
      StepsTouch(fs[j..], pre.table, pre.globals, i, rows, coord, toMpc);
      var all := StepsFrom(fs[j..], pre.table, pre.globals, i, rows, coord, toMpc);
      forall c | c in WritesOf(fs[..j]) && c in pre.table.columns
        ensures c in all.table.columns && all.table.rows[i][c] == pre.table.rows[i][c]
      {
        WritesApart(fs, j, c);
        KeptCell(pre.table, all.table, i, WritesOf(fs[j..]), i, c);
      }
    }
  }

  /** When no two fields own the same column, a column of the first `j` fields is no later field's. */
  lemma WritesApart(fs: seq<Field>, j: nat, c: string)
    requires j <= |fs| && c in WritesOf(fs[..j])
    requires forall p, q :: 0 <= p < q < |fs| ==> Writes(fs[p]) !! Writes(fs[q])
    ensures c !in WritesOf(fs[j..])
  {
    InWritesOf(fs[..j], c);
    InWritesOf(fs[j..], c);
    var p :| 0 <= p < j && c in Writes(fs[..j][p]);
    assert fs[..j][p] == fs[p];
    forall q | 0 <= q < |fs| - j ensures c !in Writes(fs[j..][q]) {
      assert fs[j..][q] == fs[j + q];
    }
  }

  /** For the script's fields: a row abandoned after field `j` keeps what fields `0..j-1` wrote. */
  lemma AbandonedRowKeepsWrites(t: Table, g: Globals, i: nat, rows: HtmlTable, coord: Located,
                                toMpc: string -> Option<real>, j: nat)
    requires WellFormed(t) && i < |t.rows| && j <= |Fields|
    ensures var pre := StepsFrom(Fields[..j], t, g, i, rows, coord, toMpc);
      var all := StepsFrom(Fields, t, g, i, rows, coord, toMpc);
      forall c :: c in WritesOf(Fields[..j]) && c in pre.table.columns ==>
        c in all.table.columns && all.table.rows[i][c] == pre.table.rows[i][c]
  {
    FieldsApart();
    KeepsEarlierWrites(Fields, t, g, i, rows, coord, toMpc, j);
  }

  /** A protected cell that is present before a field runs is present and the same after it. */
  lemma StepKeepsPresent(f: Field, t: Table, g: Globals, i: nat, rows: HtmlTable, coord: Located,
                         toMpc: string -> Option<real>, c: string)
    requires WellFormed(t) && i < |t.rows| && c !in Rewritten && c in t.columns && t.rows[i][c].Some?
    ensures c in StepOf(f, t, g, i, rows, coord, toMpc).table.columns
    ensures StepOf(f, t, g, i, rows, coord, toMpc).table.rows[i][c] == t.rows[i][c]
  {
    var p := StepOf(f, t, g, i, rows, coord, toMpc);
    if c !in Writes(f) {
      KeptCell(t, p.table, i, Writes(f), i, c);
    } else if f.Catalog? {
      CatalogKeeps(t, g, i, f.col, f.heading, rows);
    } else {
      assert f.Distance?;
      DistanceKeeps(t, g, i, rows, toMpc);
    }
  }

  lemma {:induction false} StepsKeepPresent(fs: seq<Field>, t: Table, g: Globals, i: nat, rows: HtmlTable,
                                            coord: Located, toMpc: string -> Option<real>, c: string)
    requires WellFormed(t) && i < |t.rows| && c !in Rewritten && c in t.columns && t.rows[i][c].Some?
    ensures c in StepsFrom(fs, t, g, i, rows, coord, toMpc).table.columns
    ensures StepsFrom(fs, t, g, i, rows, coord, toMpc).table.rows[i][c] == t.rows[i][c]
    decreases |fs|
  {
    if fs != [] {
      var p := StepOf(fs[0], t, g, i, rows, coord, toMpc);
      StepKeepsPresent(fs[0], t, g, i, rows, coord, toMpc, c);
      if p.failure.None? {
        StepsKeepPresent(fs[1..], p.table, p.globals, i, rows, coord, toMpc, c);
      }
    }
  }

  /** The columns the fields of a row may write. */
  lemma FieldsWrites()
    ensures WritesOf(Fields) == {VCol, RaCol, DecCol, Logd25Col, Logr25Col, PaCol, DCol}
  {
    assert Fields[6..] == [];
    WritesOfStep(Fields, 5);
    assert WritesOf(Fields[5..]) == {DCol};
    WritesOfStep(Fields, 4);
    assert WritesOf(Fields[4..]) == {PaCol, DCol};
    WritesOfStep(Fields, 3);
    assert WritesOf(Fields[3..]) == {Logr25Col, PaCol, DCol};
    WritesOfStep(Fields, 2);
    assert WritesOf(Fields[2..]) == {Logd25Col, Logr25Col, PaCol, DCol};
    WritesOfStep(Fields, 1);
    assert WritesOf(Fields[1..]) == {RaCol, DecCol, Logd25Col, Logr25Col, PaCol, DCol};
    WritesOfStep(Fields, 0);
    assert Fields[0..] == Fields;
  }

  lemma WritesOfStep(fs: seq<Field>, k: nat)
    requires k < |fs|
    ensures WritesOf(fs[k..]) == Writes(fs[k]) + WritesOf(fs[k + 1..])
  {
    assert fs[k..][0] == fs[k] && fs[k..][1..] == fs[k + 1..];
  }

  // ---------------------------------------------------------------------------
  // What the whole walk does
  // ---------------------------------------------------------------------------

  /**
   * A cell that is present before the walk, in any column but the coordinate
   * pair, is never written.
   */
  lemma SweepKeepsPresent(fs: seq<Field>, t: Table, n: nat, pages: seq<Result<HtmlTable, Exception>>,
                          coords: seq<Located>, toMpc: string -> Option<real>)
    requires WellFormed(t) && n <= |t.rows| && |pages| == |coords| == |t.rows|
    ensures PresentCellsKept(t, Sweep(fs, t, n, pages, coords, toMpc).table, Rewritten)
  {
    var u := Sweep(fs, t, n, pages, coords, toMpc).table;
    forall k, c | 0 <= k < |t.rows| && c !in Rewritten && c in t.rows[k] && t.rows[k][c].Some?
      ensures c in u.rows[k] && u.rows[k][c] == t.rows[k][c]
    {
      SweepKeepsCell(fs, t, n, pages, coords, toMpc, u, k, c);
    }
  }

  /** One present cell outside the coordinate pair, followed through the first `n` rows (`u` is the table after them). */
  lemma {:induction false} SweepKeepsCell(fs: seq<Field>, t: Table, n: nat, pages: seq<Result<HtmlTable, Exception>>,
                                          coords: seq<Located>, toMpc: string -> Option<real>, u: Table, k: nat, c: string)
    requires WellFormed(t) && n <= |t.rows| && |pages| == |coords| == |t.rows| && k < |t.rows|
    requires u == Sweep(fs, t, n, pages, coords, toMpc).table
    ensures c !in Rewritten && c in t.rows[k] && t.rows[k][c].Some? ==> c in u.rows[k] && u.rows[k][c] == t.rows[k][c]
    decreases n
  {
    if n > 0 {
      var w := Sweep(fs, t, n - 1, pages, coords, toMpc).table;
      SweepKeepsCell(fs, t, n - 1, pages, coords, toMpc, w, k, c);
      AdvanceKeepsCell(fs, t, n, pages, coords, toMpc, w, u, k, c);
      CellKeptChain(t, w, u, k, c);
    }
  }

  /** A cell kept from `t` to `w` and from `w` to `u` is kept from `t` to `u`. */
  lemma CellKeptChain(t: Table, w: Table, u: Table, k: nat, c: string)
    requires k < |t.rows| && k < |w.rows| && k < |u.rows|
    requires c !in Rewritten && c in t.rows[k] && t.rows[k][c].Some? ==> c in w.rows[k] && w.rows[k][c] == t.rows[k][c]
    requires c !in Rewritten && c in w.rows[k] && w.rows[k][c].Some? ==> c in u.rows[k] && u.rows[k][c] == w.rows[k][c]
    ensures c !in Rewritten && c in t.rows[k] && t.rows[k][c].Some? ==> c in u.rows[k] && u.rows[k][c] == t.rows[k][c]
  {
  }

  /** Row `n - 1` of the walk, from `w` to `u`, keeps a present cell outside the coordinate pair. */
  lemma AdvanceKeepsCell(fs: seq<Field>, t: Table, n: nat, pages: seq<Result<HtmlTable, Exception>>,
                         coords: seq<Located>, toMpc: string -> Option<real>, w: Table, u: Table, k: nat, c: string)
    requires WellFormed(t) && 0 < n <= |t.rows| && |pages| == |coords| == |t.rows| && k < |t.rows|
    requires w == Sweep(fs, t, n - 1, pages, coords, toMpc).table && u == Sweep(fs, t, n, pages, coords, toMpc).table
    ensures c !in Rewritten && c in w.rows[k] && w.rows[k][c].Some? ==> c in u.rows[k] && u.rows[k][c] == w.rows[k][c]
  {
    SweepNext(fs, t, n, pages, coords, toMpc, w, u);
    RowKeepsCell(fs, w, Sweep(fs, t, n - 1, pages, coords, toMpc).globals, n - 1, pages[n - 1], coords[n - 1], toMpc, u, k, c);
  }

  /** One more row, ending in `u`, keeps a present cell outside the coordinate pair, in its own row or any other. */
  lemma RowKeepsCell(fs: seq<Field>, t: Table, g: Globals, i: nat, page: Result<HtmlTable, Exception>,
                     coord: Located, toMpc: string -> Option<real>, u: Table, k: nat, c: string)
    requires WellFormed(t) && i < |t.rows| && k < |t.rows|
    requires u == RowStep(fs, t, g, i, page, coord, toMpc).table
    ensures c !in Rewritten && c in t.rows[k] && t.rows[k][c].Some? ==> c in u.rows[k] && u.rows[k][c] == t.rows[k][c]
  {
    if page.Ok? && c !in Rewritten && c in t.rows[k] && t.rows[k][c].Some? {
      assert c in t.columns;
      RowTouches(fs, t, g, i, page, coord, toMpc);
      if k == i {
        StepsKeepPresent(fs, t, g, i, page.value, coord, toMpc, c);
      } else {
        KeptCell(t, u, i, WritesOf(fs), k, c);
      }
    }
  }

  /** `u` has the rows of `t`, every column of `t`, and the same `Name` cells. */
  predicate NamesKept(t: Table, u: Table)
    requires WellFormed(t) && WellFormed(u)
  {
    && |u.rows| == |t.rows| && (forall c :: c in t.columns ==> c in u.columns)
    && ("Name" in t.columns ==> forall k :: 0 <= k < |t.rows| ==> u.rows[k]["Name"] == t.rows[k]["Name"])
  }

  lemma NamesKeptChain(t: Table, w: Table, u: Table)
    requires WellFormed(t) && WellFormed(w) && WellFormed(u) && NamesKept(t, w) && NamesKept(w, u)
    ensures NamesKept(t, u)
  {
  }

  /** A row, ending in `u`, whose fields do not write `Name` leaves the `Name` column, and the other rows, as they were. */
  lemma RowKeepsNames(fs: seq<Field>, t: Table, g: Globals, i: nat, page: Result<HtmlTable, Exception>,
                      coord: Located, toMpc: string -> Option<real>, u: Table)
    requires WellFormed(t) && i < |t.rows| && "Name" !in WritesOf(fs)
    requires u == RowStep(fs, t, g, i, page, coord, toMpc).table
    ensures WellFormed(u) && NamesKept(t, u)
  {
    RowTouches(fs, t, g, i, page, coord, toMpc);
    assert CellsKept(t, u, i, WritesOf(fs));
  }

  /** The row count and the `Name` column are the same after the walk, which ends in `u`; no column is lost. */
  lemma {:induction false} SweepKeepsNames(fs: seq<Field>, t: Table, n: nat, pages: seq<Result<HtmlTable, Exception>>,
                                           coords: seq<Located>, toMpc: string -> Option<real>, u: Table)
    requires WellFormed(t) && n <= |t.rows| && |pages| == |coords| == |t.rows| && "Name" !in WritesOf(fs)
    requires u == Sweep(fs, t, n, pages, coords, toMpc).table
    ensures WellFormed(u) && NamesKept(t, u)
    decreases n
  {
    if n > 0 {
      var w := Sweep(fs, t, n - 1, pages, coords, toMpc).table;
      SweepKeepsNames(fs, t, n - 1, pages, coords, toMpc, w);
      SweepNext(fs, t, n, pages, coords, toMpc, w, u);
      RowKeepsNames(fs, w, Sweep(fs, t, n - 1, pages, coords, toMpc).globals, n - 1, pages[n - 1], coords[n - 1], toMpc, u);
      NamesKeptChain(t, w, u);
    }
  }

  lemma CompletionKeepsPresent(t: Table, pages: seq<Result<HtmlTable, Exception>>,
                               coords: seq<Located>, toMpc: string -> Option<real>)
    requires WellFormed(t) && |pages| == |coords| == |t.rows|
    ensures var r := Completion(t, pages, coords, toMpc);
      forall k, c :: 0 <= k < |t.rows| && c in Protected && c in t.columns && t.rows[k][c].Some? ==>
        c in r.columns && r.rows[k][c] == t.rows[k][c]
  {
    LabelsDiffer();
    assert forall c :: c in Protected ==> c !in Rewritten;
    SweepKeepsPresent(Fields, t, |t.rows|, pages, coords, toMpc);
  }

  lemma CompletionKeepsNames(t: Table, pages: seq<Result<HtmlTable, Exception>>,
                             coords: seq<Located>, toMpc: string -> Option<real>)
    requires WellFormed(t) && |pages| == |coords| == |t.rows|
    ensures var r := Completion(t, pages, coords, toMpc);
      && |r.rows| == |t.rows| && (forall c :: c in t.columns ==> c in r.columns)
      && ("Name" in t.columns ==> forall k :: 0 <= k < |t.rows| ==> r.rows[k]["Name"] == t.rows[k]["Name"])
  {
    FieldsWrites();
    LabelsDiffer();
    SweepKeepsNames(Fields, t, |t.rows|, pages, coords, toMpc, Completion(t, pages, coords, toMpc));
  }

  // ---------------------------------------------------------------------------
  // The script's loop, in place
  // ---------------------------------------------------------------------------

  /** `for row in rows:` with the `break` after the first row labelled `heading`. */
  method Search(rows: HtmlTable, heading: string, variable: string, g: Globals) returns (r: Result<Globals, Exception>)
    ensures r == Lookup(rows, heading, variable, g)
  {
    var k := 0;
    while k < |rows|
      invariant k <= |rows|
      invariant forall k' :: 0 <= k' < k ==> !Labelled(rows[k'], heading)
    {
      var columns := rows[k];
      if |columns| > 0 && PyText.Strip(columns[0]) == heading {
        FirstMatchAt(rows, heading, k);
        var tok := CellToken(columns);
        if tok.None? {
          return Err(IndexError);
        }
        return Ok(g[variable := tok.value]);
      }
      k := k + 1;
    }
    return Ok(g);
  }

  /** One catalog field of row `i`: `if pd.isna(csv.at[i, col]): <search>; csv.at[i, col] = <variable>`. */
  method FillCatalog(csv: Frame, i: nat, col: string, heading: string, rows: HtmlTable, g: Globals)
    returns (g': Globals, failure: Option<Exception>)
    requires csv.Valid() && i < |csv.rows|
    modifies csv
    ensures csv.Valid() && Progress(csv.Snapshot(), g', failure) == CatalogStep(old(csv.Snapshot()), g, i, col, heading, rows)
  {
    g', failure := g, None;
    var cell := csv.Get(i, col);
    if cell.Err? {
      return g, Some(cell.error);
    }
    if cell.value.None? {
      var found := Search(rows, heading, heading, g);
      if found.Err? {
        return g, Some(found.error);
      }
      g' := found.value;
      if heading !in g' {
        return g', Some(NameError(heading));
      }
      csv.Put(i, col, Some(Text(g'[heading])));
    }
  }

  /** The coordinates of row `i`. */
  method FillCoordinates(csv: Frame, i: nat, coord: Located, g: Globals) returns (failure: Option<Exception>)
    requires csv.Valid() && i < |csv.rows|
    modifies csv
    ensures csv.Valid() && Progress(csv.Snapshot(), g, failure) == CoordinatesStep(old(csv.Snapshot()), g, i, coord)
  {
    failure := None;
    var dec := csv.Get(i, DecCol);
    if dec.Err? {
      return Some(dec.error);
    }
    var missing := dec.value.None?;
    if !missing {
      var ra := csv.Get(i, RaCol);
      if ra.Err? {
        return Some(ra.error);
      }
      missing := ra.value.None?;
    }
    if missing {
      if coord.Err? {
        return Some(coord.error);
      }
      var pair := coord.value;
      var raCell: Cell := if pair.Some? then Some(Text(pair.value.0)) else None;
      var decCell: Cell := if pair.Some? then Some(Text(pair.value.1)) else None;
      csv.Put(i, RaCol, raCell);
      csv.Put(i, DecCol, decCell);
    }
  }

  /** The distance of row `i`. */
  method FillDistance(csv: Frame, i: nat, rows: HtmlTable, toMpc: string -> Option<real>, g: Globals)
    returns (g': Globals, failure: Option<Exception>)
    requires csv.Valid() && i < |csv.rows|
    modifies csv
    ensures csv.Valid() && Progress(csv.Snapshot(), g', failure) == DistanceStep(old(csv.Snapshot()), g, i, rows, toMpc)
  {
    g', failure := g, None;
    var cell := csv.Get(i, DCol);
    if cell.Err? {
      return g, Some(cell.error);
    }
    if cell.value.None? {
      var found := Search(rows, "modbest", "d0", g);
      if found.Err? {
        return g, Some(found.error);
      }
      g' := found.value;
      if "d0" !in g' {
        return g', Some(NameError("d0"));
      }
      var d := toMpc(g'["d0"]);
      if d.None? {
        return g', Some(ValueError);
      }
      csv.Put(i, DCol, Some(Number(d.value)));
    }
  }

  /** Running the fields from `k` on is running field `k` and then, unless it raised, the fields after it. */
  lemma StepsFromAt(fs: seq<Field>, k: nat, t: Table, g: Globals, i: nat, rows: HtmlTable,
                    coord: Located, toMpc: string -> Option<real>)
    requires WellFormed(t) && i < |t.rows| && k < |fs|
    ensures var p := StepOf(fs[k], t, g, i, rows, coord, toMpc);
      StepsFrom(fs[k..], t, g, i, rows, coord, toMpc) ==
        if p.failure.Some? then p else StepsFrom(fs[k + 1..], p.table, p.globals, i, rows, coord, toMpc)
  {
    assert fs[k..][0] == fs[k] && fs[k..][1..] == fs[k + 1..];
  }

  /** The body of the `try` for row `i`; the exception it reports is what the `except` prints. */
  method CompleteRow(csv: Frame, i: nat, page: Result<HtmlTable, Exception>, coord: Located,
                     toMpc: string -> Option<real>, g: Globals) returns (g': Globals, failure: Option<Exception>)
    requires csv.Valid() && i < |csv.rows|
    modifies csv
    ensures csv.Valid() && Progress(csv.Snapshot(), g', failure) == RowStep(Fields, old(csv.Snapshot()), g, i, page, coord, toMpc)
  {
    if page.Err? {
      return g, Some(page.error);
    }
    var rows := page.value;
    ghost var t0 := csv.Snapshot();
    assert Fields[..2] == Kinematics && Fields[2..][..3] == Shape && Fields[2..][3..] == [DistanceField];
    StepsSplit(Fields, 2, t0, g, i, rows, coord, toMpc);
    StepsSplit(Fields[2..], 3, StepsFrom(Kinematics, t0, g, i, rows, coord, toMpc).table,
               StepsFrom(Kinematics, t0, g, i, rows, coord, toMpc).globals, i, rows, coord, toMpc);
    g', failure := FillKinematics(csv, i, rows, coord, toMpc, g);
    if failure.Some? {
      return;
    }
    g', failure := FillShape(csv, i, rows, coord, toMpc, g');
    if failure.Some? {
      return;
    }
    ghost var t2 := csv.Snapshot();
    StepsFromAt([DistanceField], 0, t2, g', i, rows, coord, toMpc);
    g', failure := RunField(csv, DistanceField, i, rows, coord, toMpc, g');
  }

  /** The velocity and the coordinates of row `i`, in place. */
  method FillKinematics(csv: Frame, i: nat, rows: HtmlTable, coord: Located,
                        toMpc: string -> Option<real>, g: Globals) returns (g': Globals, failure: Option<Exception>)
    requires csv.Valid() && i < |csv.rows|
    modifies csv
    ensures csv.Valid() && Progress(csv.Snapshot(), g', failure) == StepsFrom(Kinematics, old(csv.Snapshot()), g, i, rows, coord, toMpc)
  {
    StepsFromAt(Kinematics, 0, csv.Snapshot(), g, i, rows, coord, toMpc);
    g', failure := RunField(csv, VField, i, rows, coord, toMpc, g);
    if failure.Some? {
      return;
    }
    StepsFromAt(Kinematics, 1, csv.Snapshot(), g', i, rows, coord, toMpc);
    g', failure := RunField(csv, CoordinatesField, i, rows, coord, toMpc, g');
  }

  /** The diameter, the axis ratio and the position angle of row `i`, in place. */
  method FillShape(csv: Frame, i: nat, rows: HtmlTable, coord: Located,
                   toMpc: string -> Option<real>, g: Globals) returns (g': Globals, failure: Option<Exception>)
    requires csv.Valid() && i < |csv.rows|
    modifies csv
    ensures csv.Valid() && Progress(csv.Snapshot(), g', failure) == StepsFrom(Shape, old(csv.Snapshot()), g, i, rows, coord, toMpc)
  {
    StepsFromAt(Shape, 0, csv.Snapshot(), g, i, rows, coord, toMpc);
    g', failure := RunField(csv, Logd25Field, i, rows, coord, toMpc, g);
    if failure.Some? {
      return;
    }
    StepsFromAt(Shape, 1, csv.Snapshot(), g', i, rows, coord, toMpc);
    g', failure := RunField(csv, Logr25Field, i, rows, coord, toMpc, g');
    if failure.Some? {
      return;
    }
    StepsFromAt(Shape, 2, csv.Snapshot(), g', i, rows, coord, toMpc);
    g', failure := RunField(csv, PaField, i, rows, coord, toMpc, g');
  }

  /** One field of row `i`, in place. */
  method RunField(csv: Frame, f: Field, i: nat, rows: HtmlTable, coord: Located,
                  toMpc: string -> Option<real>, g: Globals) returns (g': Globals, failure: Option<Exception>)
    requires csv.Valid() && i < |csv.rows|
    modifies csv
    ensures csv.Valid() && Progress(csv.Snapshot(), g', failure) == StepOf(f, old(csv.Snapshot()), g, i, rows, coord, toMpc)
  {
    match f
    case Catalog(col, heading) =>
      g', failure := FillCatalog(csv, i, col, heading, rows, g);
    case Coordinates =>
      g' := g;
      failure := FillCoordinates(csv, i, coord, g);
    case Distance =>
      g', failure := FillDistance(csv, i, rows, toMpc, g);
  }

  /**
   * The script: `names = list(csv["Name"])`, then for each row the `try`
   * body, an exception ending only its own row.
   */
  method CompleteSample(csv: Frame, pages: seq<Result<HtmlTable, Exception>>, coords: seq<Located>,
                        toMpc: string -> Option<real>) returns (r: Result<(), Exception>)
    requires csv.Valid() && |pages| == |csv.rows| && |coords| == |csv.rows|
    modifies csv
    ensures csv.Valid()
    ensures r.Ok? <==> "Name" in old(csv.columns)
    ensures r.Ok? ==> csv.Snapshot() == Completion(old(csv.Snapshot()), pages, coords, toMpc)
    ensures r.Err? ==> r.error == KeyError("Name") && csv.Snapshot() == old(csv.Snapshot())
  {
    if "Name" !in csv.columns {
      return Err(KeyError("Name"));
    }
    ghost var t0 := csv.Snapshot();
    var g: Globals := map[];
    for i := 0 to |csv.rows|
      invariant csv.Valid() && |csv.rows| == |t0.rows|
      invariant Walk(csv.Snapshot(), g) == Sweep(Fields, t0, i, pages, coords, toMpc)
    {
      var failure;
      g, failure := CompleteRow(csv, i, pages[i], coords[i], toMpc, g);
    }
    r := Ok(());
  }
}
