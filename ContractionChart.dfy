// The data behind the two charts: the durations of the latest completed
// contractions, oldest first, and the intervals between their starts.

module ContractionChart {
  import opened Types
  import UseContractions

  /** The chart shows at most this many contractions. */
  const MaxChartPoints: nat := 20

  /** One bar of the duration chart; the `HH:mm` label is left out. */
  datatype DurationBar = DurationBar(index: nat, duration: Option<int>, fullStartTime: Instant)

  /**
   * One point of the interval chart: minutes from the previous start to this
   * one, before rounding to a tenth; `startTime` is the later start, the one
   * the label is drawn from.
   */
  datatype IntervalPoint = IntervalPoint(index: nat, interval: real, startTime: Instant)

  /** What the component renders: the empty-state card, or the chart data. */
  datatype ChartView =
    | EmptyState
    | Charts(chartData: seq<DurationBar>, intervalData: seq<IntervalPoint>)

  function Reverse<T>(s: seq<T>): (r: seq<T>)
    ensures |r| == |s|
    ensures forall k :: 0 <= k < |s| ==> r[k] == s[|s| - 1 - k]
  {
    if s == [] then [] else Reverse(s[1..]) + [s[0]]
  }

  /**
   * `.filter(completed).slice(0, 20).reverse()`: at most 20 points, each a
   * completed entry of the history, and as many as there are completed
   * entries up to that bound.
   */
  function ChartPoints(h: seq<Contraction>): (r: seq<Contraction>)
    ensures |r| <= MaxChartPoints && |r| <= |Completed(h)|
    ensures |Completed(h)| <= MaxChartPoints ==> |r| == |Completed(h)|
    ensures forall k :: 0 <= k < |r| ==> r[k] in h && IsCompleted(r[k])
  {
    var cs := Completed(h);
    Reverse(cs[..if |cs| < MaxChartPoints then |cs| else MaxChartPoints])
  }

  /**
   * `chartData`: one bar per point, numbered from 1 in order; every bar
   * drawn from a completed point has a duration.
   */
  function ChartData(points: seq<Contraction>): (r: seq<DurationBar>)
    ensures |r| == |points|
    ensures forall k :: 0 <= k < |r| ==> r[k].index == k + 1 && r[k].fullStartTime == points[k].startTime
    ensures (forall k :: 0 <= k < |points| ==> IsCompleted(points[k])) ==>
      forall k :: 0 <= k < |r| ==> r[k].duration.Some?
  {
    seq(|points|, k requires 0 <= k < |points| =>
      DurationBar(k + 1, points[k].duration, points[k].startTime))
  }

  /**
   * `intervalData`: for each point after the first, the minutes since the
   * point before it. One point fewer than there are points, numbered from 2;
   * over points whose starts never go back in time no interval is negative.
   */
  function IntervalData(points: seq<Contraction>): (r: seq<IntervalPoint>)
    ensures |r| == (if |points| == 0 then 0 else |points| - 1)
    ensures forall k :: 0 <= k < |r| ==> r[k].index == k + 2 && r[k].startTime == points[k + 1].startTime
    ensures (forall k :: 0 <= k < |points| - 1 ==> points[k].startTime <= points[k + 1].startTime) ==>
      forall k :: 0 <= k < |r| ==> r[k].interval >= 0.0
  {
    seq(if |points| == 0 then 0 else |points| - 1, k requires 0 <= k < |points| - 1 =>
      IntervalPoint(k + 2,
        (points[k + 1].startTime - points[k].startTime) as real / 60000.0,
        points[k + 1].startTime))
  }

  /**
   * The component's branch on an empty history, then the chart data: at
   * most 20 bars, and one interval fewer than there are bars.
   */
  function Chart(h: seq<Contraction>): (r: ChartView)
    ensures r.EmptyState? <==> h == []
    ensures r.Charts? ==>
      |r.chartData| <= MaxChartPoints
      && |r.intervalData| == (if |r.chartData| == 0 then 0 else |r.chartData| - 1)
  {
    if |h| == 0 then EmptyState
    else var points := ChartPoints(h); Charts(ChartData(points), IntervalData(points))
  }

  /** The interval chart is drawn only when there is at least one interval. */
  predicate ShowsIntervalChart(v: ChartView) {
    v.Charts? && |v.intervalData| > 0
  }

  /**
   * The points are the first min(20, completed) completed entries of the
   * history, in reverse: the oldest of them first.
   */
  lemma ChartPointsAreLatestCompleted(h: seq<Contraction>)
    ensures var cs, p := Completed(h), ChartPoints(h);
      && |p| == (if |cs| < MaxChartPoints then |cs| else MaxChartPoints)
      && forall k :: 0 <= k < |p| ==> p[k] == cs[|p| - 1 - k] && IsCompleted(p[k])
  {
    var cs := Completed(h);
    ReversedPrefix(cs, if |cs| < MaxChartPoints then |cs| else MaxChartPoints);
  }

  /** Reversing the first `n` elements puts the n-th first and the first last. */
  lemma ReversedPrefix<T>(s: seq<T>, n: nat)
    requires n <= |s|
    ensures |Reverse(s[..n])| == n
    ensures forall k :: 0 <= k < n ==> Reverse(s[..n])[k] == s[n - 1 - k]
  {
    forall k | 0 <= k < n ensures Reverse(s[..n])[k] == s[n - 1 - k] {
      assert s[..n][n - 1 - k] == s[n - 1 - k];
    }
  }

  /**
   * A history holding only open entries does not get the empty-state card:
   * it draws two empty charts.
   */
  lemma OpenOnlyHistoryDrawsEmptyCharts(h: seq<Contraction>)
    ensures h != [] && (forall c :: c in h ==> !IsCompleted(c)) ==> Chart(h) == Charts([], [])
  {
    if h != [] && (forall c :: c in h ==> !IsCompleted(c)) {
      AllOpenHasNoCompleted(h);
    }
  }

  /**
   * Bar k + 1 carries the duration, never null, of the k-th oldest of the
   * latest completed entries.
   */
  lemma DurationBarsFollowHistory(h: seq<Contraction>)
    requires h != []
    ensures var cs, bars := Completed(h), Chart(h).chartData;
      && |bars| <= MaxChartPoints
      && |bars| == (if |cs| < MaxChartPoints then |cs| else MaxChartPoints)
      && forall k :: 0 <= k < |bars| ==>
           bars[k].index == k + 1
           && bars[k].duration == cs[|bars| - 1 - k].duration
           && bars[k].duration.Some?
  {
    var cs, p := Completed(h), ChartPoints(h);
    ChartPointsAreLatestCompleted(h);
    BarsOfReversed(cs, p);
    assert Chart(h).chartData == ChartData(p);
  }

  /** The bars over completed points taken newest first from `cs` and reversed. */
  lemma BarsOfReversed(cs: seq<Contraction>, p: seq<Contraction>)
    requires |p| <= |cs|
    requires forall k :: 0 <= k < |p| ==> p[k] == cs[|p| - 1 - k] && IsCompleted(p[k])
    ensures var bars := ChartData(p);
      forall k :: 0 <= k < |bars| ==>
        bars[k].index == k + 1 && bars[k].duration == cs[|p| - 1 - k].duration && bars[k].duration.Some?
  {
    var bars := ChartData(p);
    forall k | 0 <= k < |bars|
      ensures bars[k].index == k + 1 && bars[k].duration == cs[|p| - 1 - k].duration && bars[k].duration.Some?
    {
      assert bars[k] == DurationBar(k + 1, p[k].duration, p[k].startTime);
    }
  }

  /**
   * The charted intervals are the summary's intervals of the latest (at most
   * 20) completed entries, in minutes instead of seconds and oldest first:
   * interval k, numbered k + 2, is the gap that ends at the start of the
   * (k + 1)-th oldest point.
   */
  lemma IntervalsFollowHistory(h: seq<Contraction>)
    requires h != []
    ensures var p, iv := ChartPoints(h), Chart(h).intervalData;
      && |iv| == (if |p| == 0 then 0 else |p| - 1)
      && forall k :: 0 <= k < |iv| ==>
           iv[k].index == k + 2
           && iv[k].interval == UseContractions.Intervals(Completed(h))[|p| - 2 - k] / 60.0
           && iv[k].startTime == Completed(h)[|p| - 2 - k].startTime
  {
    ChartPointsAreLatestCompleted(h);
    IntervalsOfReversed(Completed(h), ChartPoints(h));
    assert Chart(h).intervalData == IntervalData(ChartPoints(h));
  }

  /** The intervals over points taken newest first from `cs` and reversed. */
  lemma IntervalsOfReversed(cs: seq<Contraction>, p: seq<Contraction>)
    requires |p| <= |cs|
    requires forall k :: 0 <= k < |p| ==> p[k] == cs[|p| - 1 - k]
    ensures var iv, gaps := IntervalData(p), UseContractions.Intervals(cs);
      forall k :: 0 <= k < |iv| ==>
        iv[k].interval == gaps[|p| - 2 - k] / 60.0 && iv[k].startTime == cs[|p| - 2 - k].startTime
  {
    var iv, gaps := IntervalData(p), UseContractions.Intervals(cs);
    forall k | 0 <= k < |iv|
      ensures iv[k].interval == gaps[|p| - 2 - k] / 60.0 && iv[k].startTime == cs[|p| - 2 - k].startTime
    {
      var newer, older := cs[|p| - 2 - k], cs[|p| - 1 - k];
      assert p[k] == older && p[k + 1] == newer;
      assert iv[k].interval == (newer.startTime - older.startTime) as real / 60000.0;
      assert gaps[|p| - 2 - k] == (newer.startTime - older.startTime) as real / 1000.0;
    }
  }

  /** The interval chart appears exactly when at least two entries are completed. */
  lemma IntervalChartNeedsTwoCompleted(h: seq<Contraction>)
    ensures ShowsIntervalChart(Chart(h)) <==> |Completed(h)| >= 2
  {
    if h == [] {
      assert Completed(h) == [];
    }
  }

  /** Over a history sorted newest first, no charted interval is negative. */
  lemma IntervalsNonNegative(h: seq<Contraction>)
    requires NewestFirst(h)
    ensures Chart(h).Charts? ==>
      forall k :: 0 <= k < |Chart(h).intervalData| ==> Chart(h).intervalData[k].interval >= 0.0
  {
    if h != [] {
      CompletedKeepsNewestFirst(h);
      ChartPointsAreLatestCompleted(h);
      ReversedIsOldestFirst(Completed(h), ChartPoints(h));
      assert Chart(h).intervalData == IntervalData(ChartPoints(h));
    }
  }

  /** Points taken from a newest-first sequence and reversed never go back in time. */
  lemma ReversedIsOldestFirst(cs: seq<Contraction>, p: seq<Contraction>)
    requires NewestFirst(cs) && |p| <= |cs|
    requires forall k :: 0 <= k < |p| ==> p[k] == cs[|p| - 1 - k]
    ensures forall k :: 0 <= k < |p| - 1 ==> p[k].startTime <= p[k + 1].startTime
  {
    forall k | 0 <= k < |p| - 1 ensures p[k].startTime <= p[k + 1].startTime {
      var i := |p| - 2 - k;
      assert p[k] == cs[i + 1] && p[k + 1] == cs[i];
    }
  }
}
