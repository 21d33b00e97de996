/**
 * The three collectors of main.py that build one record per galaxy name:
 * the HyperLeda page scraper, the NED page scraper and the HyperLeda query
 * adapter. Pages and query results come in as values, one per name: an HTML
 * page is its list of tables, a table its list of rows, a row its list of
 * cell texts; a NED page is the map from element id to element text of the
 * elements that appeared before the wait gave up.
 */
module Collectors {
  import opened Wrappers
  import opened Frames
  import PyText

  type HtmlRow = seq<string>
  type HtmlTable = seq<HtmlRow>

  /** `pd.DataFrame(all_infos, columns=columns)`: a key a record lacks is a missing cell. */
  function RecordsTable(columns: seq<string>, recs: seq<map<string, string>>): (t: Table)
    requires Distinct(columns)
    ensures WellFormed(t) && t.columns == columns && |t.rows| == |recs|
    ensures forall i, c :: 0 <= i < |recs| && c in columns ==>
              t.rows[i][c] == if c in recs[i] then Some(Text(recs[i][c])) else None
  {
    Table(columns, seq(|recs|, i requires 0 <= i < |recs| =>
      map c | c in columns :: if c in recs[i] then Some(Text(recs[i][c])) else None))
  }

  // ---------------------------------------------------------------------------
  // HyperLeda page: label lookup
  // ---------------------------------------------------------------------------

  const Labels: seq<string> := ["v", "logd25", "logr25", "pa"]
  const GalacticLabel: string := "Galactic (IAU1958)"
  const HyperledaColumns: seq<string> := ["Name", "v", "logd25", "logr25", "pa", "lon", "lat"]

  /** The row's stripped first cell is `l`. */
  predicate Labelled(row: HtmlRow, l: string) {
    |row| > 0 && PyText.Strip(row[0]) == l
  }

  /** `columns[1].text.strip().split()[0]`; `None` where Python raises IndexError. */
  function CellToken(row: HtmlRow): (r: Option<string>)
    ensures r.Some? ==> |row| >= 2 && r.value != [] && PyText.NoSpace(r.value)
  {
    if |row| < 2 then None else PyText.FirstToken(row[1])
  }

  /** Every row whose label is wanted has a readable value. */
  predicate Readable(rows: HtmlTable, labels: seq<string>) {
    forall k :: 0 <= k < |rows| && |rows[k]| > 0 && PyText.Strip(rows[k][0]) in labels ==> CellToken(rows[k]).Some?
  }

  /** The last row labelled `l`. */
  function LastMatch(rows: HtmlTable, l: string): (m: Option<nat>)
    ensures m.Some? ==> m.value < |rows| && Labelled(rows[m.value], l)
                        && forall k :: m.value < k < |rows| ==> !Labelled(rows[k], l)
    ensures m.None? ==> forall k :: 0 <= k < |rows| ==> !Labelled(rows[k], l)
  {
    if rows == [] then None
    else if Labelled(rows[|rows| - 1], l) then Some(|rows| - 1)
    else LastMatch(rows[..|rows| - 1], l)
  }

  /**
   * What the label scan of one page stores, row after row: a row whose
   * stripped label is wanted sets that label to the first token of its value
   * cell, so the LAST such row wins (the `break` only leaves the loop over
   * labels); IndexError when a labelled row has no readable value.
   */
  function LabelLookup(rows: HtmlTable, labels: seq<string>, infos: map<string, string>): (r: Result<map<string, string>, Exception>)
    ensures r.Err? ==> r.error == IndexError
    ensures r.Ok? ==> forall key :: key in r.value ==> key in infos || key in labels
    decreases |rows|
  {
    if rows == [] then Ok(infos)
    else
      var last := rows[|rows| - 1];
      match LabelLookup(rows[..|rows| - 1], labels, infos)
      case Err(e) => Err(e)
      case Ok(prev) =>
        if |last| > 0 && PyText.Strip(last[0]) in labels then
          match CellToken(last)
          case None => Err(IndexError)
          case Some(t) => Ok(prev[PyText.Strip(last[0]) := t])
        else Ok(prev)
  }

  /** The scan fails exactly when some wanted row has no readable value. */
  lemma {:induction false} LabelLookupOk(rows: HtmlTable, labels: seq<string>, infos: map<string, string>)
    ensures LabelLookup(rows, labels, infos).Ok? <==> Readable(rows, labels)
    decreases |rows|
  {
    if rows != [] {
      var init := rows[..|rows| - 1];
      LabelLookupOk(init, labels, infos);
      assert forall k :: 0 <= k < |init| ==> init[k] == rows[k];
    }
  }

  /** Every wanted label that labels some row holds the value of the last such row. */
  lemma {:induction false} LabelLookupLast(rows: HtmlTable, labels: seq<string>, infos: map<string, string>, l: string)
    requires LabelLookup(rows, labels, infos).Ok? && l in labels && LastMatch(rows, l).Some?
    ensures l in LabelLookup(rows, labels, infos).value && CellToken(rows[LastMatch(rows, l).value]).Some?
    ensures LabelLookup(rows, labels, infos).value[l] == CellToken(rows[LastMatch(rows, l).value]).value
    decreases |rows|
  {
    var init := rows[..|rows| - 1];
    var last := rows[|rows| - 1];
    assert forall k :: 0 <= k < |init| ==> init[k] == rows[k];
    if !Labelled(last, l) {
      assert LastMatch(rows, l) == LastMatch(init, l);
      LabelLookupLast(init, labels, infos, l);
    }
  }

  /** A wanted label that labels no row keeps what `infos` had, and so does every other key. */
  lemma {:induction false} LabelLookupKeeps(rows: HtmlTable, labels: seq<string>, infos: map<string, string>, key: string)
    requires LabelLookup(rows, labels, infos).Ok?
    requires key !in labels || LastMatch(rows, key).None?
    ensures key in LabelLookup(rows, labels, infos).value <==> key in infos
    ensures key in infos ==> LabelLookup(rows, labels, infos).value[key] == infos[key]
    decreases |rows|
  {
    if rows != [] {
      var init := rows[..|rows| - 1];
      assert forall k :: 0 <= k < |init| ==> init[k] == rows[k];
      if key in labels {
        assert !Labelled(rows[|rows| - 1], key);
        assert LastMatch(init, key).None?;
      }
      LabelLookupKeeps(init, labels, infos, key);
    }
  }

  /**
   * The nested loops of the scraper over the rows of `tables[5]` and the
   * labels, with the `break` after the first label that matches.
   */
  method LookupLabels(rows: HtmlTable, labels: seq<string>, infos: map<string, string>) returns (r: Result<map<string, string>, Exception>)
    ensures r == LabelLookup(rows, labels, infos)
  {
    var acc := infos;
    var k := 0;
    while k < |rows|
      invariant k <= |rows| && LabelLookup(rows[..k], labels, infos) == Ok(acc)
    {
      var columns := rows[k];
      assert rows[..k + 1][..k] == rows[..k] && rows[..k + 1][k] == columns;
      var found := false;
      var j := 0;
      while j < |labels|
        invariant j <= |labels| && !found
        invariant forall j' :: 0 <= j' < j ==> !Labelled(columns, labels[j'])
      {
        if |columns| > 0 && PyText.Strip(columns[0]) == labels[j] {
          var tok := CellToken(columns);
          if tok.None? {
            LabelLookupOk(rows[..k + 1], labels, infos);
            LabelLookupOk(rows, labels, infos);
            assert !Readable(rows, labels) by {
              assert rows[k] == columns;
            }
            return Err(IndexError);
          }
          acc := acc[labels[j] := tok.value];
          found := true;
          break;
        }
        j := j + 1;
      }
      k := k + 1;
    }
    assert rows[..|rows|] == rows;
    r := Ok(acc);
  }

  // ---------------------------------------------------------------------------
  // HyperLeda page: galactic coordinates
  // ---------------------------------------------------------------------------

  /**
   * `cell.strip()[1:].replace("+", " ").replace("-", " -").split()`, then
   * tokens 0 and 1; IndexError when there are fewer than two.
   */
  function GalacticSplit(cell: string): (r: Result<(string, string), Exception>)
    ensures r.Err? ==> r.error == IndexError
    ensures r.Ok? ==> r.value.0 != [] && r.value.1 != [] && '+' !in r.value.0 && '+' !in r.value.1
  {
    var spaced := PyText.Replace(PyText.Replace(PyText.DropFirst(PyText.Strip(cell)), '+', " "), '-', " -");
    var tokens := PyText.Split(spaced);
    assert '+' !in PyText.Replace(PyText.DropFirst(PyText.Strip(cell)), '+', " ");
    PlusGone(PyText.Replace(PyText.DropFirst(PyText.Strip(cell)), '+', " "), tokens);
    if |tokens| < 2 then Err(IndexError) else Ok((tokens[0], tokens[1]))
  }

  lemma PlusGone(s: string, tokens: seq<string>)
    requires '+' !in s
    requires tokens == PyText.Split(PyText.Replace(s, '-', " -"))
    ensures forall k :: 0 <= k < |tokens| ==> '+' !in tokens[k]
  {
    var t := PyText.Replace(s, '-', " -");
    ReplaceKeeps(s, '-', " -", '+');
    SplitKeeps(t, '+');
  }

  lemma {:induction false} ReplaceKeeps(s: string, target: char, with: string, c: char)
    requires c !in s && c !in with
    ensures c !in PyText.Replace(s, target, with)
  {
    if s != [] {
      ReplaceKeeps(s[1..], target, with, c);
    }
  }

  lemma {:induction false} SplitKeeps(s: string, c: char)
    requires c !in s
    ensures forall k :: 0 <= k < |PyText.Split(s)| ==> c !in PyText.Split(s)[k]
    decreases |s|
  {
    if s != [] {
      if PyText.IsSpace(s[0]) {
        SplitKeeps(s[1..], c);
      } else {
        var n := PyText.WordLength(s);
        SplitKeeps(s[n..], c);
        assert c !in s[..n];
      }
    }
  }

  /** The first row labelled `l`. */
  function FirstMatch(rows: HtmlTable, l: string): (m: Option<nat>)
    ensures m.Some? ==> m.value < |rows| && Labelled(rows[m.value], l)
                        && forall k :: 0 <= k < m.value ==> !Labelled(rows[k], l)
    ensures m.None? ==> forall k :: 0 <= k < |rows| ==> !Labelled(rows[k], l)
  {
    if rows == [] then None
    else if Labelled(rows[0], l) then Some(0)
    else
      var m := FirstMatch(rows[1..], l);
      if m.Some? then Some(m.value + 1) else None
  }

  /** What the scan of `tables[3]` stores: `lon` and `lat` from the FIRST galactic row, nothing without one. */
  function GalacticLookup(rows: HtmlTable, infos: map<string, string>): (r: Result<map<string, string>, Exception>)
    ensures FirstMatch(rows, GalacticLabel).None? ==> r == Ok(infos)
    ensures r.Err? ==> r.error == IndexError
    ensures r.Ok? && FirstMatch(rows, GalacticLabel).Some? ==>
              var row := rows[FirstMatch(rows, GalacticLabel).value];
              |row| >= 2 && GalacticSplit(row[1]).Ok?
              && r.value == infos["lon" := GalacticSplit(row[1]).value.0]["lat" := GalacticSplit(row[1]).value.1]
  {
    match FirstMatch(rows, GalacticLabel)
    case None => Ok(infos)
    case Some(k) =>
      if |rows[k]| < 2 then Err(IndexError)
      else match GalacticSplit(rows[k][1])
        case Err(e) => Err(e)
        case Ok(p) => Ok(infos["lon" := p.0]["lat" := p.1])
  }

  /** The loop over the rows of `tables[3]`, with its `break` after the first galactic row. */
  method LookupGalactic(rows: HtmlTable, infos: map<string, string>) returns (r: Result<map<string, string>, Exception>)
    ensures r == GalacticLookup(rows, infos)
  {
    var k := 0;
    while k < |rows|
      invariant k <= |rows|
      invariant forall k' :: 0 <= k' < k ==> !Labelled(rows[k'], GalacticLabel)
    {
      var columns := rows[k];
      if |columns| > 0 && PyText.Strip(columns[0]) == GalacticLabel {
        assert FirstMatch(rows, GalacticLabel) == Some(k) by {
          FirstMatchAt(rows, GalacticLabel, k);
        }
        if |columns| < 2 {
          return Err(IndexError);
        }
        var parts := GalacticSplit(columns[1]);
        if parts.Err? {
          return Err(parts.error);
        }
        return Ok(infos["lon" := parts.value.0]["lat" := parts.value.1]);
      }
      k := k + 1;
    }
    r := Ok(infos);
  }

  lemma FirstMatchAt(rows: HtmlTable, l: string, k: nat)
    requires k < |rows| && Labelled(rows[k], l)
    requires forall k' :: 0 <= k' < k ==> !Labelled(rows[k'], l)
    ensures FirstMatch(rows, l) == Some(k)
  {
  }

  /** A packed coordinate `"G" + a + "+" + b`: longitude `a`, latitude `b`. */
  lemma GalacticPlus(a: string, b: string)
    requires a != [] && b != [] && PyText.NoSpace(a) && PyText.NoSpace(b)
    requires '+' !in a && '-' !in a && '+' !in b && '-' !in b
    ensures GalacticSplit("G" + a + "+" + b) == Ok((a, b))
  {
    var body := a + "+" + b;
    DropTag(a + "+" + b);
    assert "G" + a + "+" + b == "G" + body;
    PlusToSpace(a, b);
    PyText.ReplaceAbsent(a + " " + b, '-', " -");
    TwoWords(a, b);
  }

  /** A packed coordinate `"G" + a + "-" + b`: longitude `a`, latitude `"-" + b`. */
  lemma GalacticMinus(a: string, b: string)
    requires a != [] && b != [] && PyText.NoSpace(a) && PyText.NoSpace(b)
    requires '+' !in a && '-' !in a && '+' !in b && '-' !in b
    ensures GalacticSplit("G" + a + "-" + b) == Ok((a, "-" + b))
  {
    var body := a + "-" + b;
    DropTag(body);
    Regroup("G", a, "-", b);
    PyText.ReplaceAbsent(body, '+', " ");
    MinusToSpaced(a, b);
    assert "-" == ['-'];
    NoSpaceCons('-', b);
    TwoWords(a, "-" + b);
    SplitOfTwo("G" + body, body, a, "-" + b);
  }

  lemma Regroup(w: string, x: string, y: string, z: string)
    ensures w + x + y + z == w + (x + y + z)
  {
  }

  lemma NoSpaceCons(c: char, s: string)
    requires !PyText.IsSpace(c) && PyText.NoSpace(s)
    ensures PyText.NoSpace([c] + s)
  {
    assert forall k :: 1 <= k < |[c] + s| ==> ([c] + s)[k] == s[k - 1];
  }

  /** The split of a cell whose untagged body rewrites to two words. */
  lemma SplitOfTwo(cell: string, body: string, x: string, y: string)
    requires PyText.DropFirst(PyText.Strip(cell)) == body
    requires PyText.Split(PyText.Replace(PyText.Replace(body, '+', " "), '-', " -")) == [x, y]
    ensures GalacticSplit(cell) == Ok((x, y))
  {
  }

  /** The stripped cell loses its one-letter tag. */
  lemma DropTag(body: string)
    requires body != [] && !PyText.IsSpace(body[|body| - 1])
    ensures PyText.DropFirst(PyText.Strip("G" + body)) == body
  {
    PyText.StripUnchanged("G" + body);
  }

  lemma PlusToSpace(a: string, b: string)
    requires '+' !in a && '+' !in b
    ensures PyText.Replace(a + "+" + b, '+', " ") == a + " " + b
  {
    assert "+" == ['+'];
    PyText.ReplaceBetween(a, '+', b, " ");
  }

  lemma MinusToSpaced(a: string, b: string)
    requires '-' !in a && '-' !in b
    ensures PyText.Replace(a + "-" + b, '-', " -") == a + " " + ("-" + b)
  {
    assert "-" == ['-'];
    PyText.ReplaceBetween(a, '-', b, " -");
    assert a + " -" + b == a + " " + ("-" + b);
  }

  /** Two words with one space between split into those two words. */
  lemma TwoWords(a: string, b: string)
    requires a != [] && b != [] && PyText.NoSpace(a) && PyText.NoSpace(b)
    ensures PyText.Split(a + " " + b) == [a, b]
  {
    assert a + " " + b == a + (" " + b);
    PyText.SplitWord(a, " " + b);
    assert PyText.Split(" " + b) == PyText.Split(b);
    PyText.SplitWord(b, []);
    assert b + [] == b;
  }

  /** Fewer than two tokens after the rewrite is an IndexError. */
  lemma GalacticTooShort(cell: string)
    requires |PyText.Split(PyText.Replace(PyText.Replace(PyText.DropFirst(PyText.Strip(cell)), '+', " "), '-', " -"))| < 2
    ensures GalacticSplit(cell) == Err(IndexError)
  {
  }

  // ---------------------------------------------------------------------------
  // HyperLeda page collector
  // ---------------------------------------------------------------------------

  /** The record of one name: `tables[5]` for the labels, then `tables[3]` for the coordinates. */
  function HyperledaRecord(name: string, page: Result<seq<HtmlTable>, Exception>): (r: Result<map<string, string>, Exception>)
    ensures page.Err? ==> r == Err(page.error)
    ensures page.Ok? && |page.value| <= 5 ==> r == Err(IndexError)
  {
    match page
    case Err(e) => Err(e)
    case Ok(tables) =>
      if |tables| <= 5 then Err(IndexError)
      else match LabelLookup(tables[5], Labels, map["Name" := name])
        case Err(e) => Err(e)
        case Ok(infos) => GalacticLookup(tables[3], infos)
  }

  /** A record keeps the name it was started with. */
  lemma HyperledaRecordName(name: string, page: Result<seq<HtmlTable>, Exception>)
    requires HyperledaRecord(name, page).Ok?
    ensures "Name" in HyperledaRecord(name, page).value && HyperledaRecord(name, page).value["Name"] == name
  {
    var tables := page.value;
    var start := map["Name" := name];
    assert "Name" !in Labels;
    LabelLookupKeeps(tables[5], Labels, start, "Name");
    var infos := LabelLookup(tables[5], Labels, start).value;
    assert "Name" in infos && infos["Name"] == name;
    assert "Name" != "lon" && "Name" != "lat";
  }

  /** The records of the names before the first failure, and that failure. */
  predicate FailsFirstAt(names: seq<string>, pages: seq<Result<seq<HtmlTable>, Exception>>, i: nat, e: Exception)
    requires |pages| == |names|
  {
    && i < |names| && HyperledaRecord(names[i], pages[i]) == Err(e)
    && forall j :: 0 <= j < i ==> HyperledaRecord(names[j], pages[j]).Ok?
  }

  /**
   * `get_infos_hyperleda`: one record per name, in order, written as a table;
   * there is no `try`, so the first failing name ends the whole run with its
   * exception.
   */
  method GetInfosHyperleda(names: seq<string>, pages: seq<Result<seq<HtmlTable>, Exception>>) returns (r: Result<Table, Exception>)
    requires |pages| == |names|
    ensures r.Ok? <==> forall i :: 0 <= i < |names| ==> HyperledaRecord(names[i], pages[i]).Ok?
    ensures r.Ok? ==> r.value == RecordsTable(HyperledaColumns,
              seq(|names|, i requires 0 <= i < |names| => HyperledaRecord(names[i], pages[i]).value))
    ensures r.Err? ==> exists i :: FailsFirstAt(names, pages, i, r.error)
  {
    var allInfos: seq<map<string, string>> := [];
    for i := 0 to |names|
      invariant |allInfos| == i
      invariant forall j :: 0 <= j < i ==> HyperledaRecord(names[j], pages[j]).Ok? && allInfos[j] == HyperledaRecord(names[j], pages[j]).value
    {
      var rec := CollectHyperleda(names[i], pages[i]);
      if rec.Err? {
        assert FailsFirstAt(names, pages, i, rec.error);
        return Err(rec.error);
      }
      allInfos := allInfos + [rec.value];
    }
    assert allInfos == seq(|names|, i requires 0 <= i < |names| => HyperledaRecord(names[i], pages[i]).value);
    assert Distinct(HyperledaColumns);
    r := Ok(RecordsTable(HyperledaColumns, allInfos));
  }

  /** The body of the loop over names, for one name. */
  method CollectHyperleda(name: string, page: Result<seq<HtmlTable>, Exception>) returns (r: Result<map<string, string>, Exception>)
    ensures r == HyperledaRecord(name, page)
  {
    if page.Err? {
      return Err(page.error);
    }
    var tables := page.value;
    if |tables| <= 5 {
      return Err(IndexError);
    }
    var infos := LookupLabels(tables[5], Labels, map["Name" := name]);
    if infos.Err? {
      return Err(infos.error);
    }
    r := LookupGalactic(tables[3], infos.value);
  }

  // ---------------------------------------------------------------------------
  // NED page collector
  // ---------------------------------------------------------------------------

  const NedIds: seq<string> := ["allbyname_11", "allbyname_12", "allbyname_19", "allbyname_26"]
  const IdToName: map<string, string> := map["allbyname_11" := "lon", "allbyname_12" := "lat", "allbyname_19" := "v", "allbyname_26" := "mpc"]
  const NedColumns: seq<string> := ["Name", "lon", "lat", "v", "mpc"]

  /** `get_info(driver, id)`: the element's text, or `None` when the wait for it fails. */
  function GetInfo(page: map<string, string>, id: string): (r: Option<string>)
    ensures r.Some? <==> id in page
    ensures r.Some? ==> r.value == page[id]
  {
    if id in page then Some(page[id]) else None
  }

  function TextCell(x: Option<string>): (c: Cell)
    ensures c.Some? <==> x.Some?
    ensures x.Some? ==> c == Some(Text(x.value))
  {
    if x.Some? then Some(Text(x.value)) else None
  }

  /** Page `i` is the first whose driver start or fetch raised `e`. */
  predicate NedFailsFirstAt(pages: seq<Result<map<string, string>, Exception>>, i: nat, e: Exception) {
    && i < |pages| && pages[i] == Err(e)
    && forall j :: 0 <= j < i ==> pages[j].Ok?
  }

  /**
   * `get_infos_ned`: a row per name, in order; every id is looked up whatever
   * happened to the others, and a failed lookup leaves only its own cell
   * missing. Starting the driver and fetching the page are outside any `try`:
   * the first name whose page fails ends the run with that exception.
   */
  method GetInfosNed(names: seq<string>, pages: seq<Result<map<string, string>, Exception>>) returns (r: Result<Table, Exception>)
    requires |pages| == |names|
    ensures r.Ok? <==> forall i :: 0 <= i < |pages| ==> pages[i].Ok?
    ensures r.Err? ==> exists i :: NedFailsFirstAt(pages, i, r.error)
    ensures r.Ok? ==> WellFormed(r.value) && r.value.columns == NedColumns && |r.value.rows| == |names|
    ensures r.Ok? ==> forall i :: 0 <= i < |names| ==> r.value.rows[i]["Name"] == Some(Text(names[i]))
    ensures r.Ok? ==> forall i, id :: 0 <= i < |names| && id in NedIds ==>
              r.value.rows[i][IdToName[id]] == TextCell(GetInfo(pages[i].value, id))
  {
    var rows: seq<Row> := [];
    for i := 0 to |names|
      invariant |rows| == i
      invariant forall j :: 0 <= j < i ==> pages[j].Ok?
      invariant forall j :: 0 <= j < i ==> rows[j].Keys == ColumnSet(NedColumns) && rows[j]["Name"] == Some(Text(names[j]))
      invariant forall j, id :: 0 <= j < i && id in NedIds ==> rows[j][IdToName[id]] == TextCell(GetInfo(pages[j].value, id))
    {
      if pages[i].Err? {
        assert NedFailsFirstAt(pages, i, pages[i].error);
        return Err(pages[i].error);
      }
      var row := CollectNed(names[i], pages[i].value);
      rows := rows + [row];
    }
    NedColumnsFacts();
    r := Ok(Table(NedColumns, rows));
  }

  /** The body of the loop over names: every id is looked up, each into its own field. */
  method CollectNed(name: string, page: map<string, string>) returns (row: Row)
    ensures row.Keys == ColumnSet(NedColumns)
    ensures row["Name"] == Some(Text(name))
    ensures forall id :: id in NedIds ==> row[IdToName[id]] == TextCell(GetInfo(page, id))
  {
    NedColumnsFacts();
    var infos: map<string, Option<string>> := map["Name" := Some(name)];
    for k := 0 to |NedIds|
      invariant "Name" in infos && infos["Name"] == Some(name)
      invariant forall k' :: 0 <= k' < k ==> IdToName[NedIds[k']] in infos && infos[IdToName[NedIds[k']]] == GetInfo(page, NedIds[k'])
    {
      infos := infos[IdToName[NedIds[k]] := GetInfo(page, NedIds[k])];
    }
    row := map c | c in NedColumns :: if c in infos then TextCell(infos[c]) else None;
  }

  /** The field names are distinct, and every id names a field other than `Name`. */
  lemma NedColumnsFacts()
    ensures Distinct(NedColumns)
    ensures forall id :: id in NedIds ==> id in IdToName && IdToName[id] in NedColumns && IdToName[id] != "Name"
    ensures forall k, k' :: 0 <= k < k' < |NedIds| ==> IdToName[NedIds[k]] != IdToName[NedIds[k']]
  {
  }

  // ---------------------------------------------------------------------------
  // HyperLeda query adapter
  // ---------------------------------------------------------------------------

  const QueryColumns: seq<string> := ["Name", "lon", "lat", "v", "logd25", "logr25", "pa"]
  /** The fields read from the query result, in the order the record reads them. */
  const QuerySources: seq<string> := ["l2", "b2", "v", "logd25", "logr25", "pa"]

  /**
   * The record built from one query result: `l2` becomes `lon`, `b2` becomes
   * `lat`, the other fields keep their names; KeyError for the first field the
   * result lacks.
   */
  function QueryRecord(name: string, res: map<string, Cell>): (r: Result<Row, Exception>)
    ensures r.Ok? <==> forall f :: f in QuerySources ==> f in res
    ensures r.Err? ==> exists j :: 0 <= j < |QuerySources| && r.error == KeyError(QuerySources[j]) && QuerySources[j] !in res
                        && forall j' :: 0 <= j' < j ==> QuerySources[j'] in res
    ensures r.Ok? ==> r.value.Keys == ColumnSet(QueryColumns)
  {
    match FirstMissing(QuerySources, res)
    case Some(j) => Err(KeyError(QuerySources[j]))
    case None =>
      var row: Row := map["Name" := Some(Text(name)), "lon" := res["l2"], "lat" := res["b2"], "v" := res["v"],
                          "logd25" := res["logd25"], "logr25" := res["logr25"], "pa" := res["pa"]];
      assert row.Keys == ColumnSet(QueryColumns);
      Ok(row)
  }

  /** The fields of a complete record: the name, the renamed coordinates and the copied fields. */
  lemma QueryRecordFields(name: string, res: map<string, Cell>)
    requires QueryRecord(name, res).Ok?
    ensures var row := QueryRecord(name, res).value;
      && row["Name"] == Some(Text(name)) && row["lon"] == res["l2"] && row["lat"] == res["b2"]
      && forall f :: f in ["v", "logd25", "logr25", "pa"] ==> row[f] == res[f]
  {
  }

  lemma QueryColumnsDistinct()
    ensures Distinct(QueryColumns)
  {
  }

  /** The first of `fields` that `res` lacks. */
  function FirstMissing(fields: seq<string>, res: map<string, Cell>): (j: Option<nat>)
    ensures j.Some? ==> j.value < |fields| && fields[j.value] !in res && forall j' :: 0 <= j' < j.value ==> fields[j'] in res
    ensures j.None? ==> forall f :: f in fields ==> f in res
  {
    if fields == [] then None
    else if fields[0] !in res then Some(0)
    else
      var j := FirstMissing(fields[1..], res);
      if j.Some? then Some(j.value + 1) else None
  }

  /** The record of one name, when the library call itself may fail. */
  function QueryOutcome(name: string, res: Result<map<string, Cell>, Exception>): (r: Result<Row, Exception>)
    ensures r.Ok? ==> res.Ok? && r.value.Keys == ColumnSet(QueryColumns)
  {
    match res
    case Err(e) => Err(e)
    case Ok(m) => QueryRecord(name, m)
  }

  /** The rows of the names before the first failure, and that failure. */
  predicate QueryFailsFirstAt(names: seq<string>, results: seq<Result<map<string, Cell>, Exception>>, i: nat, e: Exception)
    requires |results| == |names|
  {
    && i < |names| && QueryOutcome(names[i], results[i]) == Err(e)
    && forall j :: 0 <= j < i ==> QueryOutcome(names[j], results[j]).Ok?
  }

  /**
   * `get_infos_query_hyperleda`: a row per name, in order; the first failing
   * name ends the run with its exception.
   */
  method GetInfosQueryHyperleda(names: seq<string>, results: seq<Result<map<string, Cell>, Exception>>) returns (r: Result<Table, Exception>)
    requires |results| == |names|
    ensures r.Ok? <==> forall i :: 0 <= i < |names| ==> QueryOutcome(names[i], results[i]).Ok?
    ensures r.Ok? ==> WellFormed(r.value) && r.value.columns == QueryColumns && |r.value.rows| == |names|
    ensures r.Ok? ==> forall i :: 0 <= i < |names| ==> r.value.rows[i] == QueryOutcome(names[i], results[i]).value
    ensures r.Err? ==> exists i :: QueryFailsFirstAt(names, results, i, r.error)
  {
    var rows: seq<Row> := [];
    for i := 0 to |names|
      invariant |rows| == i
      invariant forall j :: 0 <= j < i ==> QueryOutcome(names[j], results[j]).Ok? && rows[j] == QueryOutcome(names[j], results[j]).value
      invariant forall j :: 0 <= j < i ==> rows[j].Keys == ColumnSet(QueryColumns)
    {
      var rec := QueryOutcome(names[i], results[i]);
      if rec.Err? {
        r := Err(rec.error);
        assert QueryFailsFirstAt(names, results, i, r.error);
        return;
      }
      rows := rows + [rec.value];
    }
    QueryColumnsDistinct();
    r := Ok(Table(QueryColumns, rows));
  }
}
