/**
 * plot_chart, reduced to its decisions: whether a figure is produced, which
 * kind of chart is drawn and which title it carries.  Drawing, colours and
 * image encoding are not modelled; a figure is its kind, title and points.
 */
module Plot {
  import opened Wrappers

  /** The three ways a row's values are drawn. */
  datatype ChartKind = Line | Bar | Scatter

  /** A figure as far as the batch cares: what is drawn, under which title, from which values. */
  datatype Figure = Figure(kind: ChartKind, title: string, points: seq<real>)

  const LineLabel: string := "折线图"
  const BarLabel: string := "柱状图"
  const ScatterLabel: string := "散点图"

  /** The word the title uses for each kind. */
  function Label(k: ChartKind): string {
    match k
    case Line => LineLabel
    case Bar => BarLabel
    case Scatter => ScatterLabel
  }

  /** Different kinds have different labels, so a title tells which kind was drawn. */
  lemma LabelInjective(j: ChartKind, k: ChartKind)
    requires Label(j) == Label(k)
    ensures j == k
  {
    assert LineLabel[0] != BarLabel[0] && LineLabel[0] != ScatterLabel[0] && BarLabel[0] != ScatterLabel[0];
  }

  /**
   * plot_chart of the Streamlit front end: no figure for no values; "bar"
   * and "scatter" select their kind and every other type, "line" included,
   * draws a line chart; the title is the row name, " - " and the kind's word.
   */
  function PlotChart(values: seq<real>, rowName: string, chartType: string): (fig: Option<Figure>)
    ensures fig.None? <==> values == []
    ensures fig.Some? ==> fig.value.points == values
    ensures fig.Some? ==> (fig.value.kind == Bar <==> chartType == "bar")
    ensures fig.Some? ==> (fig.value.kind == Scatter <==> chartType == "scatter")
    ensures fig.Some? ==> fig.value.title == rowName + " - " + Label(fig.value.kind)
  {
    if values == [] then None
    else if chartType == "line" then Some(Figure(Line, rowName + " - " + LineLabel, values))
    else if chartType == "bar" then Some(Figure(Bar, rowName + " - " + BarLabel, values))
    else if chartType == "scatter" then Some(Figure(Scatter, rowName + " - " + ScatterLabel, values))
    else Some(Figure(Line, rowName + " - " + LineLabel, values))
  }

  /** The label table of the Flask front end, looked up with a line-chart default. */
  function TableLabel(chartType: string): (w: string)
    ensures w == Label(if chartType == "bar" then Bar else if chartType == "scatter" then Scatter else Line)
  {
    var labels := map["line" := LineLabel, "bar" := BarLabel, "scatter" := ScatterLabel];
    if chartType in labels then labels[chartType] else LineLabel
  }

  /**
   * plot_chart of the Flask front end: the kind comes from the drawing
   * branches and the title word from the label table, separately.
   */
  function PlotChartLabelled(values: seq<real>, rowName: string, chartType: string): (fig: Option<Figure>)
    ensures fig.None? <==> values == []
    ensures fig.Some? ==> fig.value.points == values
  {
    if values == [] then None
    else
      var word := TableLabel(chartType);
      var kind :=
        if chartType == "line" then Line
        else if chartType == "bar" then Bar
        else if chartType == "scatter" then Scatter
        else Line;
      Some(Figure(kind, rowName + " - " + word, values))
  }

  /** The two front ends produce the same figure: the label table never disagrees with the drawn kind. */
  lemma PlotChartsAgree(values: seq<real>, rowName: string, chartType: string)
    ensures PlotChartLabelled(values, rowName, chartType) == PlotChart(values, rowName, chartType)
  {
    var labels := map["line" := LineLabel, "bar" := BarLabel, "scatter" := ScatterLabel];
    assert chartType in labels <==> chartType == "line" || chartType == "bar" || chartType == "scatter";
  }

  /** Any type other than "bar" and "scatter" is drawn as a line chart titled with 折线图. */
  lemma UnknownTypeIsLine(values: seq<real>, rowName: string, chartType: string)
    requires values != [] && chartType != "bar" && chartType != "scatter"
    ensures PlotChart(values, rowName, chartType) == Some(Figure(Line, rowName + " - 折线图", values))
  {
    var fig := PlotChart(values, rowName, chartType).value;
    assert fig.kind == Line;
    assert fig.title == rowName + " - " + LineLabel;
    assert rowName + " - " + LineLabel == rowName + (" - " + LineLabel) == rowName + " - 折线图";
  }

  /** For one row name, two figures with the same title are of the same kind. */
  lemma TitleDeterminesKind(values: seq<real>, rowName: string, a: string, b: string)
    requires values != []
    requires PlotChart(values, rowName, a).value.title == PlotChart(values, rowName, b).value.title
    ensures PlotChart(values, rowName, a).value.kind == PlotChart(values, rowName, b).value.kind
  {
    var fa, fb := PlotChart(values, rowName, a).value, PlotChart(values, rowName, b).value;
    var prefix := rowName + " - ";
    assert fa.title == prefix + Label(fa.kind) && fb.title == prefix + Label(fb.kind);
    assert Label(fa.kind) == fa.title[|prefix|..];
    assert Label(fb.kind) == fb.title[|prefix|..];
    LabelInjective(fa.kind, fb.kind);
  }
}
