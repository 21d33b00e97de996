/**
 * Building the sample table from the three CSV files: the cubes table gets a
 * flag column and is left-merged with the sample on `Name` (astr.py and the
 * older antigo.py); astr.py then renames the fits table's `Gal` column to
 * `Name`, strips the names, left-merges the fits table in as well and turns
 * every -999.0 placeholder into a missing cell.
 */
module Assembly {
  import opened Wrappers
  import opened Frames
  import PyText

  const NameCol: string := "Name"
  const GalCol: string := "Gal"
  /** The flag astr.py adds to the cubes table; antigo.py spells it in lower case. */
  const CubeFlag: string := "Has_cube"
  const LowerCubeFlag: string := "has_cube"
  /** The catalogue placeholder for an unknown value. */
  const Blank: Value := Number(-999.0)

  lemma LabelsApart()
    ensures CubeFlag != NameCol && LowerCubeFlag != NameCol && GalCol != NameCol
  {
    assert CubeFlag[0] != NameCol[0];
    assert LowerCubeFlag[0] != NameCol[0];
    assert GalCol[0] != NameCol[0];
  }

  // ---------------------------------------------------------------------------
  // The cube flag and the first merge
  // ---------------------------------------------------------------------------

  /** `cubes[flag] = True`, then `pd.merge(cubes, sample, on="Name", how="left")`. */
  function CubeJoin(cubes: Table, sample: Table, flag: string): (r: Result<Table, Exception>)
    requires WellFormed(cubes) && WellFormed(sample)
    ensures r.Ok? <==> Joinable(WithColumn(cubes, flag, Some(Flag(true))), sample, NameCol)
    ensures r.Err? ==> r.error == KeyError(NameCol) || r.error == MergeError
    ensures NameCol !in sample.columns || (NameCol !in cubes.columns && flag != NameCol) ==> r == Err(KeyError(NameCol))
  {
    LeftJoin(WithColumn(cubes, flag, Some(Flag(true))), sample, NameCol)
  }

  /** Every row of the merge carries the flag, under the label the merge gives it. */
  lemma CubeJoinFlag(cubes: Table, sample: Table, flag: string)
    requires WellFormed(cubes) && WellFormed(sample) && CubeJoin(cubes, sample, flag).Ok?
    ensures var out := CubeJoin(cubes, sample, flag).value;
      var tag := Suffixed(flag, Overlap(WithColumn(cubes, flag, Some(Flag(true))), sample, NameCol), "_x");
      forall q :: 0 <= q < |out.rows| ==> tag in out.rows[q] && out.rows[q][tag] == Some(Flag(true))
    ensures flag !in sample.columns ==>
      var out := CubeJoin(cubes, sample, flag).value;
      forall q :: 0 <= q < |out.rows| ==> flag in out.rows[q] && out.rows[q][flag] == Some(Flag(true))
  {
    var c1 := WithColumn(cubes, flag, Some(Flag(true)));
    var out := CubeJoin(cubes, sample, flag).value;
    var ps := Pairings(c1, sample, NameCol, 0);
    LeftJoinRows(c1, sample, NameCol);
    forall q | 0 <= q < |out.rows|
      ensures var tag := Suffixed(flag, Overlap(c1, sample, NameCol), "_x");
        tag in out.rows[q] && out.rows[q][tag] == Some(Flag(true))
    {
      assert Paired(c1, sample, NameCol, ps[q]);
      assert Combines(c1, sample, NameCol, out.rows[q], ps[q]);
      assert flag in c1.columns;
    }
  }

  /** The merge has exactly the cube names: a name only the sample has does not appear. */
  lemma CubeJoinNames(cubes: Table, sample: Table, flag: string)
    requires WellFormed(cubes) && WellFormed(sample) && CubeJoin(cubes, sample, flag).Ok?
    requires flag != NameCol
    ensures ColumnValues(CubeJoin(cubes, sample, flag).value, NameCol) == ColumnValues(cubes, NameCol)
  {
    var c1 := WithColumn(cubes, flag, Some(Flag(true)));
    LeftJoinKeys(c1, sample, NameCol);
    assert NameCol in cubes.columns;
    forall k | 0 <= k < |cubes.rows| ensures NameCol in c1.rows[k] && c1.rows[k][NameCol] == cubes.rows[k][NameCol] {
    }
    assert ColumnValues(c1, NameCol) == ColumnValues(cubes, NameCol);
  }

  /** Some sample row has the name `name`. */
  predicate InSample(sample: Table, name: Cell) {
    exists m :: 0 <= m < |sample.rows| && NameCol in sample.rows[m] && sample.rows[m][NameCol] == name
  }

  /**
   * Merge row `o` holds the cells of a sample row with its name when the
   * sample has the name, and missing sample cells when it does not.
   */
  predicate SampleCellsCopied(l: Table, sample: Table, o: Row) {
    && NameCol in o
    && (InSample(sample, o[NameCol]) ==>
          exists m :: 0 <= m < |sample.rows| && NameCol in sample.rows[m] && sample.rows[m][NameCol] == o[NameCol]
                      && FromRight(l, sample, NameCol, o, sample.rows[m]))
    && (!InSample(sample, o[NameCol]) ==> RightMissing(l, sample, NameCol, o))
  }

  /** A cube with a sample entry gets the sample's columns; a cube without one gets missing cells. */
  lemma CubeJoinSampleCells(cubes: Table, sample: Table, flag: string)
    requires WellFormed(cubes) && WellFormed(sample) && CubeJoin(cubes, sample, flag).Ok?
    ensures var out := CubeJoin(cubes, sample, flag).value;
      forall q :: 0 <= q < |out.rows| ==> SampleCellsCopied(WithColumn(cubes, flag, Some(Flag(true))), sample, out.rows[q])
  {
    var c1 := WithColumn(cubes, flag, Some(Flag(true)));
    var out := CubeJoin(cubes, sample, flag).value;
    var ps := Pairings(c1, sample, NameCol, 0);
    LeftJoinRows(c1, sample, NameCol);
    forall q | 0 <= q < |out.rows| ensures SampleCellsCopied(c1, sample, out.rows[q]) {
      var pr := ps[q];
      assert Paired(c1, sample, NameCol, pr);
      assert Combines(c1, sample, NameCol, out.rows[q], pr);
      JoinKeyCell(c1, sample, NameCol, q);
      var name := out.rows[q][NameCol];
      assert name == c1.rows[pr.left][NameCol];
      if pr.right.Some? {
        var m := pr.right.value;
        assert NameCol in sample.rows[m] && sample.rows[m][NameCol] == name;
        assert InSample(sample, name);
      } else {
        assert !InSample(sample, name);
      }
    }
  }

  /** antigo.py: `p["has_cube"] = True`, then the left merge with the sample. */
  method AttachCubes(p: Frame, sample: Table) returns (r: Result<Table, Exception>)
    requires p.Valid() && WellFormed(sample)
    modifies p
    ensures p.Valid() && p.Snapshot() == WithColumn(old(p.Snapshot()), LowerCubeFlag, Some(Flag(true)))
    ensures r == CubeJoin(old(p.Snapshot()), sample, LowerCubeFlag)
    ensures r.Ok? ==> ColumnValues(r.value, NameCol) == ColumnValues(old(p.Snapshot()), NameCol)
    ensures r.Ok? && LowerCubeFlag !in sample.columns ==>
      forall q :: 0 <= q < |r.value.rows| ==> LowerCubeFlag in r.value.rows[q] && r.value.rows[q][LowerCubeFlag] == Some(Flag(true))
    ensures r.Ok? ==> forall q :: 0 <= q < |r.value.rows| ==> SampleCellsCopied(p.Snapshot(), sample, r.value.rows[q])
  {
    ghost var p0 := p.Snapshot();
    p.Assign(LowerCubeFlag, Some(Flag(true)));
    r := LeftJoin(p.Snapshot(), sample, NameCol);
    if r.Ok? {
      LabelsApart();
      CubeJoinNames(p0, sample, LowerCubeFlag);
      CubeJoinFlag(p0, sample, LowerCubeFlag);
      CubeJoinSampleCells(p0, sample, LowerCubeFlag);
    }
  }

  // ---------------------------------------------------------------------------
  // The second merge and the scrub (astr.py)
  // ---------------------------------------------------------------------------

  /** A left merge keeps every left row: each is the left part of some result row. */
  lemma LeftJoinKeepsLeft(l: Table, r: Table, key: string)
    requires WellFormed(l) && WellFormed(r) && LeftJoin(l, r, key).Ok?
    ensures var out := LeftJoin(l, r, key).value;
      forall i :: 0 <= i < |l.rows| ==> exists q :: 0 <= q < |out.rows| && FromLeft(l, r, key, out.rows[q], l.rows[i])
  {
    var out := LeftJoin(l, r, key).value;
    var ps := Pairings(l, r, key, 0);
    PairingsCoverLeft(l, r, key, 0);
    LeftJoinRows(l, r, key);
    forall i | 0 <= i < |l.rows| ensures exists q :: 0 <= q < |out.rows| && FromLeft(l, r, key, out.rows[q], l.rows[i]) {
      assert Covers(ps, i);
      var q :| 0 <= q < |ps| && ps[q].left == i;
      assert Combines(l, r, key, out.rows[q], ps[q]);
    }
  }

  /** Python's `strip()` leaves no whitespace at either end. */
  predicate Trimmed(s: string) {
    s == [] || (!PyText.IsSpace(s[0]) && !PyText.IsSpace(s[|s| - 1]))
  }

  /**
   * `fits.rename(columns={'Gal': 'Name'}, inplace=True)`, then
   * `fits['Name'] = fits['Name'].str.strip()`: KeyError when the table has
   * neither label.
   */
  function FitsNames(fits: Table): (r: Result<Table, Exception>)
    requires WellFormed(fits) && (GalCol in fits.columns ==> NameCol !in fits.columns)
    ensures r.Ok? <==> GalCol in fits.columns || NameCol in fits.columns
    ensures r.Err? ==> r.error == KeyError(NameCol)
    ensures r.Ok? ==> WellFormed(r.value) && NameCol in r.value.columns && |r.value.rows| == |fits.rows|
  {
    LabelsApart();
    StrippedColumn(Renamed(fits, GalCol, NameCol), NameCol)
  }

  /** A name cell after `.str.strip()`: missing, or a text with no whitespace at either end. */
  predicate TrimmedName(x: Cell) {
    x.None? || (x.value.Text? && Trimmed(x.value.s))
  }

  lemma StrippedTrimmed(x: Cell)
    ensures TrimmedName(StrippedCell(x))
  {
    if x.Some? && x.value.Text? {
      PyText.StripSpec(x.value.s);
    }
  }

  /** The names come from `Gal` (or an existing `Name`), stripped; the other columns stay as they were. */
  lemma FitsNamesStripped(fits: Table)
    requires WellFormed(fits) && (GalCol in fits.columns ==> NameCol !in fits.columns) && FitsNames(fits).Ok?
    ensures var f := FitsNames(fits).value;
      forall k :: 0 <= k < |f.rows| ==> f.rows[k][NameCol] == StrippedCell(fits.rows[k][if GalCol in fits.columns then GalCol else NameCol])
    ensures var f := FitsNames(fits).value;
      forall k :: 0 <= k < |f.rows| ==> TrimmedName(f.rows[k][NameCol])
    ensures var f := FitsNames(fits).value;
      forall k, c :: 0 <= k < |f.rows| && c in fits.columns && c != GalCol && c != NameCol ==> c in f.rows[k] && f.rows[k][c] == fits.rows[k][c]
  {
    LabelsApart();
    var src := if GalCol in fits.columns then GalCol else NameCol;
    var rn := Renamed(fits, GalCol, NameCol);
    var f := FitsNames(fits).value;
    assert NameCol in rn.columns;
    assert f == StrippedColumn(rn, NameCol).value;
    forall k | 0 <= k < |f.rows|
      ensures f.rows[k] == rn.rows[k][NameCol := StrippedCell(rn.rows[k][NameCol])]
      ensures rn.rows[k][NameCol] == fits.rows[k][src]
    {
    }
    forall k | 0 <= k < |f.rows| ensures TrimmedName(f.rows[k][NameCol]) {
      StrippedTrimmed(rn.rows[k][NameCol]);
    }
  }

  /** A placeholder cell becomes missing; any other cell stays. */
  function Unblanked(x: Cell): (y: Cell)
    ensures y != Some(Blank)
    ensures x != Some(Blank) ==> y == x
  {
    if x == Some(Blank) then None else x
  }

  /** The scrub is idempotent. */
  lemma ScrubIdempotent(t: Table, target: Value)
    requires WellFormed(t)
    ensures Scrubbed(Scrubbed(t, target), target) == Scrubbed(t, target)
  {
    var s := Scrubbed(t, target);
    var s2 := Scrubbed(s, target);
    forall k | 0 <= k < |s.rows| ensures s2.rows[k] == s.rows[k] {
      assert s2.rows[k].Keys == s.rows[k].Keys;
    }
    assert s2.rows == s.rows;
  }

  /** After the scrub a column holds its former cells with placeholders made missing. */
  lemma ScrubbedValues(t: Table, col: string)
    requires WellFormed(t) && col in t.columns
    ensures ColumnValues(Scrubbed(t, Blank), col) == set x | x in ColumnValues(t, col) :: Unblanked(x)
  {
    var s := Scrubbed(t, Blank);
    forall y | y in ColumnValues(s, col) ensures y in set x | x in ColumnValues(t, col) :: Unblanked(x) {
      var k :| 0 <= k < |s.rows| && col in s.rows[k] && s.rows[k][col] == y;
      ScrubbedCell(t, col, k);
      assert t.rows[k][col] in ColumnValues(t, col);
    }
    forall x | x in ColumnValues(t, col) ensures Unblanked(x) in ColumnValues(s, col) {
      var k :| 0 <= k < |t.rows| && col in t.rows[k] && t.rows[k][col] == x;
      ScrubbedCell(t, col, k);
    }
  }

  lemma ScrubbedCell(t: Table, col: string, k: nat)
    requires WellFormed(t) && col in t.columns && k < |t.rows|
    ensures col in t.rows[k] && col in Scrubbed(t, Blank).rows[k]
    ensures Scrubbed(t, Blank).rows[k][col] == Unblanked(t.rows[k][col])
  {
  }

  /**
   * astr.py lines 13-23 on values: the flagged cube merge, the fits names,
   * the second left merge and the scrub of -999.0.
   */
  function Prepared(c: Table, csv: Table, fits: Table): (r: Result<Table, Exception>)
    requires WellFormed(c) && WellFormed(csv) && WellFormed(fits)
    requires GalCol in fits.columns ==> NameCol !in fits.columns
    ensures r.Ok? ==> WellFormed(r.value)
    ensures r.Ok? ==> forall k, col :: 0 <= k < |r.value.rows| && col in r.value.rows[k] ==> r.value.rows[k][col] != Some(Blank)
    ensures r.Ok? <==> CubeJoin(c, csv, CubeFlag).Ok? && (GalCol in fits.columns || NameCol in fits.columns)
                       && LeftJoin(CubeJoin(c, csv, CubeFlag).value, FitsNames(fits).value, NameCol).Ok?
    ensures r.Err? ==> r.error == KeyError(NameCol) || r.error == MergeError
  {
    match CubeJoin(c, csv, CubeFlag)
    case Err(e) => Err(e)
    case Ok(m) =>
      match FitsNames(fits)
      case Err(e) => Err(e)
      case Ok(f) =>
        match LeftJoin(m, f, NameCol)
        case Err(e) => Err(e)
        case Ok(t) => Ok(Scrubbed(t, Blank))
  }

  /** The prepared table has exactly the cube names (a -999.0 name made missing), whatever the sample and fits hold. */
  lemma PreparedNames(c: Table, csv: Table, fits: Table)
    requires WellFormed(c) && WellFormed(csv) && WellFormed(fits)
    requires GalCol in fits.columns ==> NameCol !in fits.columns
    requires Prepared(c, csv, fits).Ok?
    ensures ColumnValues(Prepared(c, csv, fits).value, NameCol) == set x | x in ColumnValues(c, NameCol) :: Unblanked(x)
  {
    LabelsApart();
    var m := CubeJoin(c, csv, CubeFlag).value;
    var f := FitsNames(fits).value;
    CubeJoinNames(c, csv, CubeFlag);
    LeftJoinKeys(m, f, NameCol);
    var t := LeftJoin(m, f, NameCol).value;
    assert NameCol in t.columns by {
      assert NameCol in m.columns;
      assert Suffixed(NameCol, Overlap(m, f, NameCol), "_x") == NameCol;
      assert NameCol in SuffixedAll(m.columns, Overlap(m, f, NameCol), "_x") by {
        var i :| 0 <= i < |m.columns| && m.columns[i] == NameCol;
        assert SuffixedAll(m.columns, Overlap(m, f, NameCol), "_x")[i] == NameCol;
      }
    }
    ScrubbedValues(t, NameCol);
  }

  /** astr.py lines 18-19, in place; the table is unchanged when it raises. */
  method NameFits(fits: Frame) returns (r: Result<(), Exception>)
    requires fits.Valid() && (GalCol in fits.columns ==> NameCol !in fits.columns)
    modifies fits
    ensures fits.Valid()
    ensures r.Ok? <==> FitsNames(old(fits.Snapshot())).Ok?
    ensures r.Ok? ==> fits.Snapshot() == FitsNames(old(fits.Snapshot())).value
    ensures r.Err? ==> r.error == KeyError(NameCol) && fits.Snapshot() == old(fits.Snapshot())
  {
    LabelsApart();
    fits.Rename(GalCol, NameCol);
    r := fits.StripColumn(NameCol);
  }

  /** astr.py lines 13-23, changing `c` and `fits` in place as the script does. */
  method PrepareTable(c: Frame, csv: Table, fits: Frame) returns (r: Result<Table, Exception>)
    requires c.Valid() && fits.Valid() && WellFormed(csv) && c != fits
    requires GalCol in fits.columns ==> NameCol !in fits.columns
    modifies c, fits
    ensures c.Valid() && c.Snapshot() == WithColumn(old(c.Snapshot()), CubeFlag, Some(Flag(true)))
    ensures fits.Valid()
    ensures fits.Snapshot() == if CubeJoin(old(c.Snapshot()), csv, CubeFlag).Ok? && FitsNames(old(fits.Snapshot())).Ok?
                               then FitsNames(old(fits.Snapshot())).value else old(fits.Snapshot())
    ensures r == Prepared(old(c.Snapshot()), csv, old(fits.Snapshot()))
    ensures r.Ok? ==> ColumnValues(r.value, NameCol) == set x | x in ColumnValues(old(c.Snapshot()), NameCol) :: Unblanked(x)
  {
    ghost var c0, fits0 := c.Snapshot(), fits.Snapshot();
    LabelsApart();
    c.Assign(CubeFlag, Some(Flag(true)));
    var m := LeftJoin(c.Snapshot(), csv, NameCol);
    if m.Err? {
      return Err(m.error);
    }
    var named := NameFits(fits);
    if named.Err? {
      return Err(named.error);
    }
    var joined := LeftJoin(m.value, fits.Snapshot(), NameCol);
    if joined.Err? {
      return Err(joined.error);
    }
    var t := new Frame(joined.value);
    t.Replace(Blank);
    r := Ok(t.Snapshot());
    PreparedNames(c0, csv, fits0);
  }
}
