/** The report's bar chart: one bar per row with a non-null percentage, in groups of
    fifty, each bar scaled against the tallest of its group. */
module BarChart {
  import opened Wrappers
  import opened Chunking
  import opened Processing

  /** `{ label, value }`: one bar. */
  datatype ChartItem = ChartItem(itemLabel: string, value: real)

  const GroupSize: nat := 50
  const ChartHeight: real := 320.0
  const PaddingTop: real := 30.0
  const PaddingBottom: real := 110.0

  /** The height of the plotting area: `height - padding.top - padding.bottom`. */
  const PlotHeight: real := ChartHeight - PaddingTop - PaddingBottom

  /** `result.fieldLabel || result.field || "Field"`. */
  function ChartLabel(row: ResultEntry): (r: string)
    ensures r != ""
    ensures r == row.fieldLabel || r == row.field || r == "Field"
  {
    if row.fieldLabel != "" then row.fieldLabel else if row.field != "" then row.field else "Field"
  }

  /** The chart data as `renderBarChart` builds it: `Number(null)` is 0, so every row
      becomes a bar and a row without a percentage is drawn as a 0% bar. */
  function ChartDataAsWritten(results: seq<ResultEntry>): (r: seq<ChartItem>)
    ensures |r| == |results|
  {
    seq(|results|, i requires 0 <= i < |results| =>
      ChartItem(ChartLabel(results[i]), results[i].nonNullPercentage.GetOr(0.0)))
  }

  /** A row whose percentage is null (a skipped or failed field, shown as "—" in the
      table) still gets a bar, of height zero, labelled with the field. */
  lemma NullPercentagePlotted(results: seq<ResultEntry>, i: nat)
    requires i < |results| && results[i].nonNullPercentage.None?
    ensures ChartItem(ChartLabel(results[i]), 0.0) in ChartDataAsWritten(results)
  {
    assert ChartDataAsWritten(results)[i] == ChartItem(ChartLabel(results[i]), 0.0);
  }

  /** One skipped field alone shows a chart with a 0% bar. */
  lemma SkippedOnlyReportShowsChart()
    ensures var row := ResultEntry("Account", "Account (Account)", "Notes__c", "Notes", None, None, None,
                                   SkippedNotFilterable);
      ChartDataAsWritten([row]) == [ChartItem("Notes", 0.0)] && ChartData([row]) == []
  {
  }

  /** The rows that have a percentage, in order. */
  function WithPercentage(results: seq<ResultEntry>): (r: seq<ResultEntry>)
    ensures |r| <= |results|
    ensures forall i | 0 <= i < |r| :: r[i].nonNullPercentage.Some?
  {
    if results == [] then []
    else
      var last := results[|results| - 1];
      WithPercentage(results[..|results| - 1]) + (if last.nonNullPercentage.Some? then [last] else [])
  }

  /** The chart data with rows without a percentage left out. */
  function ChartData(results: seq<ResultEntry>): seq<ChartItem> {
    if results == [] then []
    else
      var last := results[|results| - 1];
      ChartData(results[..|results| - 1]) +
        (if last.nonNullPercentage.Some? then [ChartItem(ChartLabel(last), last.nonNullPercentage.value)] else [])
  }

  /** The chart plots exactly the rows that have a percentage, in order, each at its
      percentage; where every row has one it agrees with the code as written. */
  lemma {:induction false} ChartDataPlotsPercentages(results: seq<ResultEntry>)
    ensures ChartData(results) == ChartDataAsWritten(WithPercentage(results))
    ensures (forall i | 0 <= i < |results| :: results[i].nonNullPercentage.Some?) ==>
      ChartData(results) == ChartDataAsWritten(results)
  {
    if results != [] {
      var n := |results| - 1;
      ChartDataPlotsPercentages(results[..n]);
      var w := WithPercentage(results[..n]);
      var last := results[n];
      if last.nonNullPercentage.Some? {
        assert ChartDataAsWritten(w + [last]) == ChartDataAsWritten(w) + [ChartItem(ChartLabel(last), last.nonNullPercentage.value)];
      }
      if forall i | 0 <= i < |results| :: results[i].nonNullPercentage.Some? {
        assert forall i | 0 <= i < n :: results[..n][i] == results[i];
        assert ChartDataAsWritten(results) == ChartDataAsWritten(results[..n]) + [ChartItem(ChartLabel(last), last.nonNullPercentage.value)];
      }
    }
  }

  /** As written, the chart is hidden only for an empty report, which `init` already
      turns away, so the page always shows it. */
  lemma ChartShownAsWritten(results: seq<ResultEntry>)
    ensures ChartDataAsWritten(results) != [] <==> results != []
  {
  }

  /** Corrected: the chart is shown exactly when some row has a percentage. */
  lemma {:induction false} ChartShown(results: seq<ResultEntry>)
    ensures ChartData(results) != [] <==> exists i | 0 <= i < |results| :: results[i].nonNullPercentage.Some?
  {
    if results != [] {
      var n := |results| - 1;
      ChartShown(results[..n]);
      if exists i | 0 <= i < n :: results[..n][i].nonNullPercentage.Some? {
        var i :| 0 <= i < n && results[..n][i].nonNullPercentage.Some?;
        assert results[i] == results[..n][i];
      }
      if exists i | 0 <= i < |results| :: results[i].nonNullPercentage.Some? {
        var i :| 0 <= i < |results| && results[i].nonNullPercentage.Some?;
        if i < n {
          assert results[..n][i] == results[i];
        }
      }
    }
  }

  /* ---------- groups of fifty ---------- */

  /** `chunkArray(data, 50)`: groups of fifty bars, the last one possibly shorter. */
  function Groups(data: seq<ChartItem>): (g: seq<seq<ChartItem>>)
    ensures Flatten(g) == data
    ensures forall i :: 0 <= i < |g| ==> 0 < |g[i]| <= GroupSize
    ensures forall i :: 0 <= i < |g| - 1 ==> |g[i]| == GroupSize
  {
    ChunksShape(data, GroupSize);
    Chunks(data, GroupSize)
  }

  /** The caption of group `index`: the first and last field numbers it shows, written
      only when there is more than one group. */
  function Caption(groups: seq<seq<ChartItem>>, index: nat): Option<(nat, nat)>
    requires index < |groups|
  {
    if |groups| > 1 then Some((index * GroupSize + 1, index * GroupSize + |groups[index]|)) else None
  }

  /** Captions appear exactly when there are more than fifty bars. */
  lemma CaptionsWhenMoreThanFifty(data: seq<ChartItem>)
    requires data != []
    ensures Caption(Groups(data), 0).Some? <==> |data| > GroupSize
  {
    var g := Groups(data);
    if |g| > 1 {
      FlattenIndex(g, 1, 0);
      assert Flatten(g[..1]) == g[0] by {
        assert g[..1] == [g[0]];
        assert Flatten(g[..1]) == g[0] + Flatten(g[..1][1..]);
      }
    } else {
      assert Flatten(g) == g[0] + Flatten(g[1..]);
    }
  }

  /** The captions number the bars 1 to |data| without gaps or overlaps, each group
      covering as many numbers as it has bars. */
  lemma CaptionsTile(data: seq<ChartItem>)
    requires |data| > GroupSize
    ensures var g := Groups(data);
      && |g| > 1
      && Caption(g, 0).value.0 == 1
      && (forall k | 0 <= k < |g| :: Caption(g, k).value.1 - Caption(g, k).value.0 + 1 == |g[k]|)
      && (forall k | 0 <= k < |g| - 1 :: Caption(g, k).value.1 + 1 == Caption(g, k + 1).value.0)
      && Caption(g, |g| - 1).value.1 == |data|
  {
    var g := Groups(data);
    CaptionsWhenMoreThanFifty(data);
    forall k | 0 <= k < |g| - 1 ensures Caption(g, k).value.1 + 1 == Caption(g, k + 1).value.0 {
      assert |g[k]| == GroupSize;
      assert (k + 1) * GroupSize == k * GroupSize + GroupSize;
    }
    var last := |g| - 1;
    ChunksBefore(data, GroupSize, last);
    FlattenSnoc(g, last);
    assert g[..last + 1] == g;
  }

  /* ---------- scaling ---------- */

  /** `Math.max(...values, 0)`. */
  function MaxValue(values: seq<real>): (r: real)
    ensures r >= 0.0
    ensures forall i | 0 <= i < |values| :: values[i] <= r
    ensures r == 0.0 || exists i | 0 <= i < |values| :: values[i] == r
  {
    if values == [] then 0.0
    else
      var rest := MaxValue(values[1..]);
      assert forall i | 1 <= i < |values| :: values[i] == values[1..][i - 1];
      if values[0] > rest then values[0] else rest
  }

  function Values(group: seq<ChartItem>): (r: seq<real>)
    ensures |r| == |group| && forall i | 0 <= i < |group| :: r[i] == group[i].value
  {
    seq(|group|, i requires 0 <= i < |group| => group[i].value)
  }

  /** `maxValue === 0 ? 0 : (item.value / maxValue) * plotHeight`. */
  function BarHeight(value: real, maxValue: real): real {
    if maxValue == 0.0 then 0.0 else value / maxValue * PlotHeight
  }

  /** A value between zero and the maximum gets a bar inside the plotting area, the
      maximum itself a full-height bar, and a larger value a bar at least as tall. */
  lemma BarHeightScales(v: real, w: real, maxValue: real)
    requires 0.0 <= v <= maxValue && v <= w <= maxValue
    ensures 0.0 <= BarHeight(v, maxValue) <= PlotHeight
    ensures BarHeight(v, maxValue) <= BarHeight(w, maxValue)
    ensures maxValue > 0.0 ==> BarHeight(maxValue, maxValue) == PlotHeight
  {
    if maxValue > 0.0 {
      assert v / maxValue <= w / maxValue <= 1.0;
    }
  }

  /** The bar heights of one chart. */
  function BarHeights(group: seq<ChartItem>): (r: seq<real>)
    ensures |r| == |group|
  {
    var m := MaxValue(Values(group));
    seq(|group|, i requires 0 <= i < |group| => BarHeight(group[i].value, m))
  }

  /** With non-negative values every bar fits the plotting area, bars keep the order
      of their values, and the largest value reaches the top unless all are zero. */
  lemma BarsFit(group: seq<ChartItem>)
    requires forall i | 0 <= i < |group| :: group[i].value >= 0.0
    ensures var h := BarHeights(group);
      && (forall i | 0 <= i < |group| :: 0.0 <= h[i] <= PlotHeight)
      && (forall i, j | 0 <= i < |group| && 0 <= j < |group| && group[i].value <= group[j].value :: h[i] <= h[j])
      && ((exists i | 0 <= i < |group| :: group[i].value > 0.0) ==> exists i | 0 <= i < |group| :: h[i] == PlotHeight)
  {
    var m := MaxValue(Values(group));
    var h := BarHeights(group);
    forall i, j | 0 <= i < |group| && 0 <= j < |group| && group[i].value <= group[j].value
      ensures 0.0 <= h[i] <= PlotHeight && h[i] <= h[j]
    {
      assert Values(group)[i] <= m && Values(group)[j] <= m;
      BarHeightScales(group[i].value, group[j].value, m);
    }
    forall i | 0 <= i < |group| ensures 0.0 <= h[i] <= PlotHeight {
      assert Values(group)[i] <= m;
      BarHeightScales(group[i].value, group[i].value, m);
    }
    if exists i | 0 <= i < |group| :: group[i].value > 0.0 {
      var i :| 0 <= i < |group| && group[i].value > 0.0;
      assert Values(group)[i] <= m;
      var k :| 0 <= k < |group| && Values(group)[k] == m;
      BarHeightScales(m, m, m);
      assert h[k] == PlotHeight;
    }
  }
}
