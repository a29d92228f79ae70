/**
 * The per-row batch shared by the Flask route process, the Streamlit
 * function process_data and the copy of that loop in the Streamlit page:
 * every row of the sheet, in order, is named, its data cell parsed, and a
 * row with values yields a chart image and an entry in the results list.
 */
module Batch {
  import opened Wrappers
  import opened StrOps
  import opened Filename
  import opened CellParse
  import opened Plot

  /** A sheet row: the cell under each column name. */
  type Row = map<string, Cell>

  /**
   * A loaded sheet: its column names and its rows in file order.  The row
   * at position idx has the index label idx, as pandas numbers the rows it
   * reads.
   */
  datatype Table = Table(columns: set<string>, rows: seq<Row>)

  /** Every row has a cell under every column and under nothing else. */
  predicate WellFormed(t: Table) {
    forall i :: 0 <= i < |t.rows| ==> t.rows[i].Keys == t.columns
  }

  /** What a batch is asked for: the data column, the optional name column, the chart type and the output directory. */
  datatype Params = Params(dataColumn: string, nameColumn: Option<string>, chartType: string, outputDir: string)

  /** One entry of the results list. */
  datatype RowResult = RowResult(rowName: string, rowNumber: nat, dataPoints: nat, fileName: string, filePath: string)

  /** A row that produced an image: its entry, and the figure saved at its file path. */
  datatype Rendered = Rendered(result: RowResult, figure: Figure)

  /** The default row name row_N, where N = idx + 2 is the row's line in the sheet file (line 1 is the header). */
  function RowLabel(idx: nat): (name: string)
    ensures |name| >= 5 && name[..4] == "row_"
    ensures forall k :: 4 <= k < |name| ==> IsDigit(name[k])
    ensures DecimalValue(name[4..]) == idx + 2
    ensures name[4] != '0'
  {
    var name := "row_" + NatToString(idx + 2);
    assert name[4..] == NatToString(idx + 2);
    name
  }

  /** The name column is used when it is given, not empty, and a column of the sheet. */
  predicate UsesNameColumn(t: Table, nameColumn: Option<string>) {
    nameColumn.Some? && nameColumn.value != "" && nameColumn.value in t.columns
  }

  /** row_ followed by the canonical digits of idx + 2 can only be the default name of row idx. */
  lemma RowLabelDetermined(idx: nat, name: string)
    requires |name| >= 4 && name[..4] == "row_"
    requires IsCanonicalDecimal(name[4..]) && DecimalValue(name[4..]) == idx + 2
    ensures name == RowLabel(idx)
  {
    CanonicalDecimalUnique(name[4..], idx + 2);
    assert name == name[..4] + name[4..];
  }

  /** The name of row idx: the printed name cell, or the default label. */
  function RowName(t: Table, idx: nat, nameColumn: Option<string>): (name: string)
    requires WellFormed(t) && idx < |t.rows|
    ensures UsesNameColumn(t, nameColumn) ==> name == Str(t.rows[idx][nameColumn.value])
    ensures !UsesNameColumn(t, nameColumn) ==>
      |name| >= 5 && name[..4] == "row_" && IsCanonicalDecimal(name[4..]) && DecimalValue(name[4..]) == idx + 2
  {
    if UsesNameColumn(t, nameColumn) then Str(t.rows[idx][nameColumn.value]) else RowLabel(idx)
  }

  /** The values of row idx's data cell; a missing data column gives none. */
  function RowValues(t: Table, idx: nat, dataColumn: string, toNumber: Converter): seq<real>
    requires WellFormed(t) && idx < |t.rows|
  {
    if dataColumn in t.columns then Parsed(t.rows[idx][dataColumn], toNumber) else []
  }

  /** What row idx yields: nothing when the data column is missing or gives no values, else its entry and its figure. */
  function RowOutcome(t: Table, idx: nat, p: Params, toNumber: Converter): Option<Rendered>
    requires WellFormed(t) && idx < |t.rows|
  {
    var name := RowName(t, idx, p.nameColumn);
    if p.dataColumn !in t.columns then None
    else
      var values := Parsed(t.rows[idx][p.dataColumn], toNumber);
      if values == [] then None
      else
        match PlotChart(values, name, p.chartType)
        case None => None
        case Some(fig) =>
          var file := ImageName(name);
          Some(Rendered(RowResult(name, idx + 2, |values|, file, PathJoin(p.outputDir, file)), fig))
  }

  /** Which rows are numbered how: an outcome at position i carries row number i + 2. */
  predicate Numbered(os: seq<Option<Rendered>>) {
    forall i :: 0 <= i < |os| && os[i].Some? ==> os[i].value.result.rowNumber == i + 2
  }

  /** The entries of the outcomes that are present, in order. */
  function Collected(os: seq<Option<Rendered>>): seq<RowResult> {
    if os == [] then []
    else
      var front := Collected(os[..|os| - 1]);
      match os[|os| - 1]
      case Some(o) => front + [o.result]
      case None => front
  }

  /** The figure of the first outcome that is present. */
  function FirstOf(os: seq<Option<Rendered>>): Option<Figure> {
    if os == [] then None
    else
      var front := FirstOf(os[..|os| - 1]);
      if front.Some? then front
      else
        match os[|os| - 1]
        case Some(o) => Some(o.figure)
        case None => None
  }

  /** The outcomes of the first n rows. */
  function Outcomes(t: Table, p: Params, toNumber: Converter, n: nat): (os: seq<Option<Rendered>>)
    requires WellFormed(t) && n <= |t.rows|
    ensures |os| == n && forall i :: 0 <= i < n ==> os[i] == RowOutcome(t, i, p, toNumber)
  {
    seq(n, i requires 0 <= i < n => RowOutcome(t, i, p, toNumber))
  }

  /** The results list after the first n rows. */
  function Results(t: Table, p: Params, toNumber: Converter, n: nat): seq<RowResult>
    requires WellFormed(t) && n <= |t.rows|
  {
    Collected(Outcomes(t, p, toNumber, n))
  }

  /** The first figure produced among the first n rows, the one the Flask route previews. */
  function FirstFigure(t: Table, p: Params, toNumber: Converter, n: nat): Option<Figure>
    requires WellFormed(t) && n <= |t.rows|
  {
    FirstOf(Outcomes(t, p, toNumber, n))
  }

  /** One more row adds its outcome at the end. */
  lemma OutcomesStep(t: Table, p: Params, toNumber: Converter, n: nat)
    requires WellFormed(t) && n < |t.rows|
    ensures Outcomes(t, p, toNumber, n + 1) == Outcomes(t, p, toNumber, n) + [RowOutcome(t, n, p, toNumber)]
  {
  }

  /** Appending an outcome appends its entry and keeps an earlier first figure. */
  lemma CollectedStep(os: seq<Option<Rendered>>, o: Option<Rendered>)
    ensures Collected(os + [o]) == Collected(os) + (if o.Some? then [o.value.result] else [])
    ensures FirstOf(os + [o]) == if FirstOf(os).Some? then FirstOf(os) else if o.Some? then Some(o.value.figure) else None
  {
    assert (os + [o])[..|os|] == os;
  }

  /**
   * The row loop of the Flask route: every row is named and its name
   * sanitized; rows without the data column or without values are skipped;
   * the others are charted, the first chart is kept for the preview, and an
   * entry is appended.
   */
  method ProcessRows(t: Table, p: Params, toNumber: Converter) returns (results: seq<RowResult>, preview: Option<Figure>)
    requires WellFormed(t)
    ensures results == Results(t, p, toNumber, |t.rows|)
    ensures preview == FirstFigure(t, p, toNumber, |t.rows|)
  {
    results := [];
    preview := None;
    for idx := 0 to |t.rows|
      invariant results == Results(t, p, toNumber, idx)
      invariant preview == FirstFigure(t, p, toNumber, idx)
    {
      OutcomesStep(t, p, toNumber, idx);
      CollectedStep(Outcomes(t, p, toNumber, idx), RowOutcome(t, idx, p, toNumber));
      var rowName;
      if UsesNameColumn(t, p.nameColumn) {
        rowName := Str(t.rows[idx][p.nameColumn.value]);
      } else {
        rowName := RowLabel(idx);
      }
      var safeName := SanitizeFilename(rowName);
      if p.dataColumn !in t.columns {
        continue;
      }
      var values := ParseData(t.rows[idx][p.dataColumn], toNumber);
      if values == [] {
        continue;
      }
      var fig := PlotChartLabelled(values, rowName, p.chartType);
      PlotChartsAgree(values, rowName, p.chartType);
      if fig.Some? {
        var fileName := safeName + ".png";
        var outFile := PathJoin(p.outputDir, fileName);
        if preview.None? {
          preview := fig;
        }
        results := results + [RowResult(rowName, idx + 2, |values|, fileName, outFile)];
      }
    }
  }

  /**
   * process_data of the Streamlit front end, and the same loop inside its
   * page: the results list of the Flask route, without the preview.
   */
  method ProcessData(t: Table, dataColumn: string, nameColumn: Option<string>, chartType: string, outputDir: string,
                     toNumber: Converter) returns (results: seq<RowResult>)
    requires WellFormed(t)
    ensures results == Results(t, Params(dataColumn, nameColumn, chartType, outputDir), toNumber, |t.rows|)
  {
    ghost var p := Params(dataColumn, nameColumn, chartType, outputDir);
    results := [];
    for idx := 0 to |t.rows|
      invariant results == Results(t, p, toNumber, idx)
    {
      OutcomesStep(t, p, toNumber, idx);
      CollectedStep(Outcomes(t, p, toNumber, idx), RowOutcome(t, idx, p, toNumber));
      var rowName;
      if UsesNameColumn(t, nameColumn) {
        rowName := Str(t.rows[idx][nameColumn.value]);
      } else {
        rowName := RowLabel(idx);
      }
      var safeRowName := SanitizeFilename(rowName);
      if dataColumn !in t.columns {
        continue;
      }
      var values := ParseData(t.rows[idx][dataColumn], toNumber);
      if values == [] {
        continue;
      }
      var fig := PlotChart(values, rowName, chartType);
      if fig.Some? {
        var fileName := safeRowName + ".png";
        var outputFile := PathJoin(outputDir, fileName);
        results := results + [RowResult(rowName, idx + 2, |values|, fileName, outputFile)];
      }
    }
  }

  /**
   * What one row yields: an entry exactly when the data column exists and
   * its cell gives values; the entry carries the row number idx + 2, the
   * row's name, the number of values, the sanitized name with .png as file
   * name and that name joined to the output directory as file path, and
   * the figure drawn from the values under the row's name.
   */
  lemma RowOutcomeFields(t: Table, idx: nat, p: Params, toNumber: Converter)
    requires WellFormed(t) && idx < |t.rows|
    ensures RowOutcome(t, idx, p, toNumber).Some? <==> RowValues(t, idx, p.dataColumn, toNumber) != []
    ensures RowOutcome(t, idx, p, toNumber).Some? ==>
      var r := RowOutcome(t, idx, p, toNumber).value.result;
      var values := RowValues(t, idx, p.dataColumn, toNumber);
      r.rowNumber == idx + 2 && r.rowName == RowName(t, idx, p.nameColumn) &&
      r.dataPoints == |values| >= 1 &&
      r.fileName == Sanitize(r.rowName) + ".png" && r.filePath == PathJoin(p.outputDir, r.fileName) &&
      RowOutcome(t, idx, p, toNumber).value.figure == PlotChart(values, r.rowName, p.chartType).value
  {
  }

  /** Every row's outcome carries its own row number. */
  lemma OutcomesNumbered(t: Table, p: Params, toNumber: Converter, n: nat)
    requires WellFormed(t) && n <= |t.rows|
    ensures Numbered(Outcomes(t, p, toNumber, n))
  {
    var os := Outcomes(t, p, toNumber, n);
    forall i | 0 <= i < |os| && os[i].Some?
      ensures os[i].value.result.rowNumber == i + 2
    {
      RowOutcomeFields(t, i, p, toNumber);
    }
  }

  /** At most one entry per outcome. */
  lemma {:induction false} CollectedBound(os: seq<Option<Rendered>>)
    ensures |Collected(os)| <= |os|
  {
    if os != [] {
      CollectedBound(os[..|os| - 1]);
    }
  }

  /** No outcome present, no entry. */
  lemma {:induction false} CollectedNone(os: seq<Option<Rendered>>)
    requires forall i :: 0 <= i < |os| ==> os[i].None?
    ensures Collected(os) == []
  {
    if os != [] {
      CollectedNone(os[..|os| - 1]);
    }
  }

  /** The collection of all outcomes but the last, and the last outcome's entry, if any. */
  lemma CollectedLast(os: seq<Option<Rendered>>)
    requires os != []
    ensures Numbered(os) ==> Numbered(os[..|os| - 1])
    ensures Collected(os) == Collected(os[..|os| - 1]) + (if os[|os| - 1].Some? then [os[|os| - 1].value.result] else [])
  {
    var fos := os[..|os| - 1];
    assert forall i :: 0 <= i < |fos| ==> fos[i] == os[i];
  }

  /** Each entry is the outcome at the position its number names. */
  lemma {:induction false} CollectedFromOutcomes(os: seq<Option<Rendered>>)
    requires Numbered(os)
    ensures var rs := Collected(os);
      forall k :: 0 <= k < |rs| ==>
        2 <= rs[k].rowNumber < |os| + 2 && os[rs[k].rowNumber - 2].Some? && os[rs[k].rowNumber - 2].value.result == rs[k]
  {
    if os != [] {
      var fos := os[..|os| - 1];
      CollectedLast(os);
      CollectedFromOutcomes(fos);
      var front, rs := Collected(fos), Collected(os);
      forall k | 0 <= k < |rs|
        ensures 2 <= rs[k].rowNumber < |os| + 2 && os[rs[k].rowNumber - 2].Some? && os[rs[k].rowNumber - 2].value.result == rs[k]
      {
        if k < |front| {
          assert rs[k] == front[k];
          assert fos[rs[k].rowNumber - 2] == os[rs[k].rowNumber - 2];
        }
      }
    }
  }

  /** Entry k is the outcome at the position its number names. */
  lemma CollectedEntry(os: seq<Option<Rendered>>, k: nat)
    requires Numbered(os) && k < |Collected(os)|
    ensures 2 <= Collected(os)[k].rowNumber < |os| + 2
    ensures os[Collected(os)[k].rowNumber - 2].Some? && os[Collected(os)[k].rowNumber - 2].value.result == Collected(os)[k]
  {
    CollectedFromOutcomes(os);
  }

  /** Entry numbers strictly increase. */
  lemma {:induction false} CollectedIncreasing(os: seq<Option<Rendered>>)
    requires Numbered(os)
    ensures var rs := Collected(os);
      forall k, l :: 0 <= k < l < |rs| ==> rs[k].rowNumber < rs[l].rowNumber
  {
    if os != [] {
      var fos := os[..|os| - 1];
      CollectedLast(os);
      CollectedIncreasing(fos);
      CollectedFromOutcomes(fos);
      var front, rs := Collected(fos), Collected(os);
      assert forall k :: 0 <= k < |front| ==> rs[k] == front[k] && front[k].rowNumber < |os| + 1;
    }
  }

  /** A position has an entry exactly when its outcome is present. */
  lemma {:induction false} CollectedCovers(os: seq<Option<Rendered>>)
    requires Numbered(os)
    ensures var rs := Collected(os);
      forall i :: 0 <= i < |os| ==> (os[i].Some? <==> exists k :: 0 <= k < |rs| && rs[k].rowNumber == i + 2)
  {
    var rs := Collected(os);
    forall i | 0 <= i < |os|
      ensures os[i].Some? <==> exists k :: 0 <= k < |rs| && rs[k].rowNumber == i + 2
    {
      if os[i].Some? {
        CollectedHas(os, i);
      } else if exists k :: 0 <= k < |rs| && rs[k].rowNumber == i + 2 {
        var k :| 0 <= k < |rs| && rs[k].rowNumber == i + 2;
        CollectedEntry(os, k);
      }
    }
  }

  /** A present outcome has an entry. */
  lemma {:induction false} CollectedHas(os: seq<Option<Rendered>>, i: nat)
    requires Numbered(os) && i < |os| && os[i].Some?
    ensures exists k :: 0 <= k < |Collected(os)| && Collected(os)[k].rowNumber == i + 2
  {
    var fos := os[..|os| - 1];
    CollectedLast(os);
    var front, rs := Collected(fos), Collected(os);
    if i < |os| - 1 {
      assert fos[i] == os[i];
      CollectedHas(fos, i);
      var k :| 0 <= k < |front| && front[k].rowNumber == i + 2;
      assert rs[k] == front[k];
    } else {
      assert rs[|rs| - 1] == os[i].value.result;
    }
  }

  /** The first figure is the figure of the first entry, and there is one exactly when there are entries. */
  lemma {:induction false} FirstOfIsFirstEntry(os: seq<Option<Rendered>>)
    requires Numbered(os)
    ensures FirstOf(os).Some? <==> Collected(os) != []
    ensures Collected(os) != [] ==>
      var r := Collected(os)[0];
      2 <= r.rowNumber < |os| + 2 && os[r.rowNumber - 2].Some? && FirstOf(os).value == os[r.rowNumber - 2].value.figure
  {
    if os != [] {
      var n := |os|;
      var fos := os[..n - 1];
      assert Numbered(fos) by {
        assert forall i :: 0 <= i < n - 1 ==> fos[i] == os[i];
      }
      FirstOfIsFirstEntry(fos);
      var front := Collected(fos);
      if front == [] {
        if os[n - 1].Some? {
          assert Collected(os) == [os[n - 1].value.result];
        }
      } else {
        assert Collected(os)[0] == front[0];
        assert fos[front[0].rowNumber - 2] == os[front[0].rowNumber - 2];
      }
    }
  }

  /** At most one entry per row. */
  lemma ResultsBound(t: Table, p: Params, toNumber: Converter)
    requires WellFormed(t)
    ensures |Results(t, p, toNumber, |t.rows|)| <= |t.rows|
  {
    CollectedBound(Outcomes(t, p, toNumber, |t.rows|));
  }

  /** A data column the sheet does not have gives an empty results list. */
  lemma MissingDataColumn(t: Table, p: Params, toNumber: Converter)
    requires WellFormed(t) && p.dataColumn !in t.columns
    ensures Results(t, p, toNumber, |t.rows|) == []
  {
    var os := Outcomes(t, p, toNumber, |t.rows|);
    forall i | 0 <= i < |os|
      ensures os[i].None?
    {
      RowOutcomeFields(t, i, p, toNumber);
    }
    CollectedNone(os);
  }

  /**
   * The entries are the producing rows in sheet order: each entry is the
   * outcome of the row its number names, numbers strictly increase, and a
   * row has an entry exactly when its data cell gives values.
   */
  lemma ResultsInRowOrder(t: Table, p: Params, toNumber: Converter)
    requires WellFormed(t)
    ensures var rs := Results(t, p, toNumber, |t.rows|);
      forall k :: 0 <= k < |rs| ==>
        2 <= rs[k].rowNumber < |t.rows| + 2 &&
        RowOutcome(t, rs[k].rowNumber - 2, p, toNumber).Some? &&
        RowOutcome(t, rs[k].rowNumber - 2, p, toNumber).value.result == rs[k]
    ensures var rs := Results(t, p, toNumber, |t.rows|);
      forall k, l :: 0 <= k < l < |rs| ==> rs[k].rowNumber < rs[l].rowNumber
    ensures var rs := Results(t, p, toNumber, |t.rows|);
      forall idx :: 0 <= idx < |t.rows| ==>
        (RowValues(t, idx, p.dataColumn, toNumber) != [] <==> exists k :: 0 <= k < |rs| && rs[k].rowNumber == idx + 2)
  {
    var os := Outcomes(t, p, toNumber, |t.rows|);
    OutcomesNumbered(t, p, toNumber, |t.rows|);
    CollectedFromOutcomes(os);
    CollectedIncreasing(os);
    CollectedCovers(os);
    forall idx | 0 <= idx < |t.rows|
      ensures RowValues(t, idx, p.dataColumn, toNumber) != [] <==> os[idx].Some?
    {
      RowOutcomeFields(t, idx, p, toNumber);
    }
  }

  /**
   * What every entry holds: the number of the row it comes from, that
   * row's name, a positive count equal to the number of values the row's
   * data cell gives, the sanitized name with .png as file name, and that
   * name joined to the output directory as file path.
   */
  lemma ResultFields(t: Table, p: Params, toNumber: Converter, k: nat)
    requires WellFormed(t) && k < |Results(t, p, toNumber, |t.rows|)|
    ensures var r := Results(t, p, toNumber, |t.rows|)[k];
      2 <= r.rowNumber < |t.rows| + 2 &&
      r.rowName == RowName(t, r.rowNumber - 2, p.nameColumn) &&
      r.dataPoints >= 1 && r.dataPoints == |RowValues(t, r.rowNumber - 2, p.dataColumn, toNumber)| &&
      r.fileName == Sanitize(r.rowName) + ".png" &&
      r.filePath == PathJoin(p.outputDir, r.fileName)
  {
    var os := Outcomes(t, p, toNumber, |t.rows|);
    OutcomesNumbered(t, p, toNumber, |t.rows|);
    CollectedEntry(os, k);
    var r := Collected(os)[k];
    var idx := r.rowNumber - 2;
    RowOutcomeFields(t, idx, p, toNumber);
  }

  /**
   * An image is written directly inside the output directory, never above
   * or below it: os.path.join adds a '/' unless the directory is empty or
   * already ends with one.
   */
  lemma ImageInOutputDir(t: Table, p: Params, toNumber: Converter, k: nat)
    requires WellFormed(t) && k < |Results(t, p, toNumber, |t.rows|)|
    ensures var r := Results(t, p, toNumber, |t.rows|)[k];
      '/' !in r.fileName && r.fileName != [] &&
      r.filePath == if p.outputDir == [] || p.outputDir[|p.outputDir| - 1] == '/'
                    then p.outputDir + r.fileName else p.outputDir + "/" + r.fileName
  {
    ResultFields(t, p, toNumber, k);
    var r := Results(t, p, toNumber, |t.rows|)[k];
    assert r.fileName == ImageName(r.rowName);
    assert r.fileName[0] != '/';
  }

  /** The preview is the figure of the first entry's row, and there is one exactly when there are entries. */
  lemma PreviewIsFirstEntry(t: Table, p: Params, toNumber: Converter)
    requires WellFormed(t)
    ensures FirstFigure(t, p, toNumber, |t.rows|).Some? <==> Results(t, p, toNumber, |t.rows|) != []
    ensures Results(t, p, toNumber, |t.rows|) != [] ==>
      var r := Results(t, p, toNumber, |t.rows|)[0];
      2 <= r.rowNumber < |t.rows| + 2 && RowOutcome(t, r.rowNumber - 2, p, toNumber).Some? &&
      FirstFigure(t, p, toNumber, |t.rows|).value == RowOutcome(t, r.rowNumber - 2, p, toNumber).value.figure
  {
    var os := Outcomes(t, p, toNumber, |t.rows|);
    OutcomesNumbered(t, p, toNumber, |t.rows|);
    FirstOfIsFirstEntry(os);
    if Collected(os) != [] {
      var idx := Collected(os)[0].rowNumber - 2;
      assert os[idx] == RowOutcome(t, idx, p, toNumber);
    }
  }

  /** Without a name column two different rows get different default names and so different image files. */
  lemma DefaultImageNamesDistinct(i: nat, j: nat)
    requires i != j
    requires |RowLabel(i)| <= MaxNameLength && |RowLabel(j)| <= MaxNameLength
    ensures ImageName(RowLabel(i)) != ImageName(RowLabel(j))
  {
    var a, b := RowLabel(i), RowLabel(j);
    assert IsClean(a) by {
      assert forall k :: 0 <= k < |a| ==> (k < 4 && a[k] == "row_"[k]) || IsDigit(a[k]);
    }
    assert IsClean(b) by {
      assert forall k :: 0 <= k < |b| ==> (k < 4 && b[k] == "row_"[k]) || IsDigit(b[k]);
    }
    SanitizeFixedPoints(a);
    SanitizeFixedPoints(b);
  }

  /** The first rows of a sheet without a name column are named row_2, row_3 and so on. */
  lemma DefaultNamesStartAtTwo()
    ensures RowLabel(0) == "row_2" && RowLabel(1) == "row_3"
    ensures ImageName(RowLabel(0)) == "row_2.png" && ImageName(RowLabel(1)) == "row_3.png"
  {
    assert RowLabel(0) == "row_2" && RowLabel(1) == "row_3";
    CleanImageName("row_2");
    CleanImageName("row_3");
  }

  /** A clean name of at most 200 characters is its image file name without the .png. */
  lemma CleanImageName(s: string)
    requires IsClean(s) && |s| <= MaxNameLength
    ensures ImageName(s) == s + ".png"
  {
    SanitizeFixedPoints(s);
  }

  /**
   * File names are not unique: two rows whose names differ only in an
   * illegal character write the same image path, the later overwriting the
   * earlier.
   */
  lemma SharedImagePath(t: Table, p: Params, toNumber: Converter, i: nat, j: nat)
    requires WellFormed(t) && i < |t.rows| && j < |t.rows|
    requires UsesNameColumn(t, p.nameColumn)
    requires t.rows[i][p.nameColumn.value] == Text("a:b") && t.rows[j][p.nameColumn.value] == Text("a?b")
    requires RowOutcome(t, i, p, toNumber).Some? && RowOutcome(t, j, p, toNumber).Some?
    ensures i != j
    ensures RowOutcome(t, i, p, toNumber).value.result.filePath == RowOutcome(t, j, p, toNumber).value.result.filePath
  {
    ImageNameCollision();
  }
}
