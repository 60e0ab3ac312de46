/**
 * The analysis pipeline: one urban-coverage statistic per year that has
 * a label raster, the change map between the first and the last of those
 * years, and the lines of the report.
 */
module Analysis {
  import opened Wrappers
  import opened Classes
  import opened LandCover
  import opened ChangeDetection
  import opened Shapes

  /** The years analysed are FirstYear up to, not including, EndYear: 2018 to 2025. */
  const FirstYear: int := 2018
  const EndYear: int := 2026

  /** The urban coverage of one processed year. */
  datatype YearStat = YearStat(year: int, pct: Percent)

  /** One entry of the report: a year's coverage, or the growth over the whole span. */
  datatype ReportLine =
    | YearLine(year: int, pct: Percent)
    | GrowthLine(startYear: int, endYear: int, growth: Percent)

  /** A year in the analysed range whose label raster exists. */
  predicate Available(landCover: map<int, Grid>, y: int) {
    y in landCover && FirstYear <= y < EndYear
  }

  /** The years the statistics mention. */
  function Years(stats: seq<YearStat>): set<int> {
    set k | 0 <= k < |stats| :: stats[k].year
  }

  /** The years below `hi` in the analysed range whose label raster exists. */
  function YearsWithData(landCover: map<int, Grid>, hi: int): set<int> {
    set y | y in landCover && FirstYear <= y < hi
  }

  /** Years strictly ascending along the sequence. */
  predicate Ascending(stats: seq<YearStat>) {
    forall a, b :: 0 <= a < b < |stats| ==> stats[a].year < stats[b].year
  }

  /**
   * The statistics of the years FirstYear .. hi - 1: a year whose label
   * raster is missing is skipped, any other contributes its coverage.
   */
  function YearlyStats(landCover: map<int, Grid>, hi: int): seq<YearStat>
    decreases hi - FirstYear
  {
    if hi <= FirstYear then []
    else
      var year := hi - 1;
      YearlyStats(landCover, year)
      + (if year in landCover then [YearStat(year, UrbanPercentage(landCover[year]))] else [])
  }

  /** The label rasters as written to disk (8-bit) for every year that was processed. */
  function Classified(landCover: map<int, Grid>, hi: int): map<int, Grid> {
    map y | y in landCover && FirstYear <= y < hi :: ReEncode(landCover[y])
  }

  /** One more year of the range either writes its raster or leaves the written ones as they are. */
  lemma ClassifiedStep(landCover: map<int, Grid>, year: int)
    requires FirstYear <= year
    ensures Classified(landCover, year + 1)
            == if year in landCover then Classified(landCover, year)[year := ReEncode(landCover[year])]
               else Classified(landCover, year)
  {
    var next, prev := Classified(landCover, year + 1), Classified(landCover, year);
    if year in landCover {
      assert next.Keys == prev.Keys + {year};
    } else {
      assert next.Keys == prev.Keys;
    }
  }

  /**
   * The year loop: every year of the range in turn; a year without a label
   * raster is skipped, any other appends its statistic and writes its
   * 8-bit classification raster.
   */
  method CollectYearlyStats(landCover: map<int, Grid>) returns (stats: seq<YearStat>, classified: map<int, Grid>)
    ensures stats == YearlyStats(landCover, EndYear)
    ensures classified == Classified(landCover, EndYear)
  {
    stats := [];
    classified := map[];
    for year := FirstYear to EndYear
      invariant stats == YearlyStats(landCover, year)
      invariant classified == Classified(landCover, year)
    {
      ClassifiedStep(landCover, year);
      if year !in landCover {
        continue;
      }
      var labels := landCover[year];
      var pct := UrbanPercentage(labels);
      stats := stats + [YearStat(year, pct)];
      classified := classified[year := ReEncode(labels)];
    }
  }

  /** The start and end years of the change map: the first and last processed year, given two or more. */
  function ChangeEndpoints(stats: seq<YearStat>): (r: Option<(int, int)>)
    ensures r.Some? <==> |stats| >= 2
    ensures Ascending(stats) && r.Some? ==> r.value.0 < r.value.1
  {
    if |stats| >= 2 then Some((stats[0].year, stats[|stats| - 1].year)) else None
  }

  /** a - b; NaN when either is NaN, as in floating point. */
  function Difference(a: Percent, b: Percent): (r: Percent)
    ensures r.NaN? <==> a.NaN? || b.NaN?
  {
    if a.Pct? && b.Pct? then Pct(a.value - b.value) else NaN
  }

  /** The total urban growth: the last coverage minus the first, given two or more years. */
  function Growth(stats: seq<YearStat>): (r: Option<Percent>)
    ensures r.Some? <==> |stats| >= 2
  {
    if |stats| >= 2 then Some(Difference(stats[|stats| - 1].pct, stats[0].pct)) else None
  }

  /**
   * The report body: one line per processed year, in order, then the
   * growth line when there are two years or more.
   */
  function Report(stats: seq<YearStat>): (r: seq<ReportLine>)
    ensures |r| == |stats| + (if |stats| >= 2 then 1 else 0)
    ensures |stats| >= 2 ==>
      && r[|r| - 1].GrowthLine?
      && Some((r[|r| - 1].startYear, r[|r| - 1].endYear)) == ChangeEndpoints(stats)
      && Some(r[|r| - 1].growth) == Growth(stats)
  {
    var years := seq(|stats|, k requires 0 <= k < |stats| => YearLine(stats[k].year, stats[k].pct));
    if |stats| >= 2 then
      years + [GrowthLine(stats[0].year, stats[|stats| - 1].year, Growth(stats).value)]
    else years
  }

  /** The statistics a report lists, read back from its year lines. */
  function ReadYearLines(lines: seq<ReportLine>): seq<YearStat> {
    if |lines| == 0 then []
    else
      (if lines[0].YearLine? then [YearStat(lines[0].year, lines[0].pct)] else [])
      + ReadYearLines(lines[1..])
  }

  /**
   * The whole analysis over the label rasters at hand: the statistics,
   * the change mask between the first and last processed years (when
   * there are two), and the report. A shape mismatch between the first
   * and last rasters raises in the change step, which ends the run before
   * any report is written: the report is then None.
   */
  method AnalyzeData(landCover: map<int, Grid>)
    returns (stats: seq<YearStat>, change: Option<Result<array2<int>>>, report: Option<seq<ReportLine>>)
    requires forall y :: y in landCover ==> IsGrid(landCover[y])
    ensures stats == YearlyStats(landCover, EndYear)
    ensures change.Some? <==> |stats| >= 2
    ensures change.Some? ==>
      var (s, e) := ChangeEndpoints(stats).value;
      var before, after := ReEncode(landCover[s]), ReEncode(landCover[e]);
      && s in landCover && e in landCover
      && (change.value.Err? <==> !SameShape(before, after))
      && (change.value.Ok? ==> fresh(change.value.value) && SameShape(before, after)
                               && Cells(change.value.value) == NewUrbanMask(before, after))
    ensures report.None? <==> change.Some? && change.value.Err?
    ensures report.Some? ==> report.value == Report(stats)
  {
    var classified;
    stats, classified := CollectYearlyStats(landCover);
    change := None;
    if |stats| >= 2 {
      StatsAscending(landCover, EndYear);
      var startYear, endYear := stats[0].year, stats[|stats| - 1].year;
      assert ChangeEndpoints(stats).value == (startYear, endYear);
      var before, after := classified[startYear], classified[endYear];
      assert before == ReEncode(landCover[startYear]) && after == ReEncode(landCover[endYear]);
      ReEncodeKeepsGrid(landCover[startYear]);
      ReEncodeKeepsGrid(landCover[endYear]);
      var mask := ChangeMap(before, after);
      change := Some(mask);
      if mask.Err? {
        return stats, change, None;
      }
    }
    report := Some(Report(stats));
  }

  // ---------------------------------------------------------------------
  // Lemmas

  /** A year is listed exactly when it is in range and its label raster exists. */
  lemma StatsListAvailableYears(landCover: map<int, Grid>, y: int)
    ensures y in Years(YearlyStats(landCover, EndYear)) <==> Available(landCover, y)
  {
    StatsCoverYears(landCover, EndYear);
    assert y in YearsWithData(landCover, EndYear) <==> Available(landCover, y);
  }

  /** The years come in strictly ascending order; each is in range, has data, and carries that raster's coverage. */
  lemma {:induction false} StatsAscending(landCover: map<int, Grid>, hi: int)
    ensures var r := YearlyStats(landCover, hi);
      && Ascending(r)
      && forall k :: 0 <= k < |r| ==>
        && FirstYear <= r[k].year < hi && r[k].year in landCover
        && r[k].pct == UrbanPercentage(landCover[r[k].year])
    decreases hi - FirstYear
  {
    if hi > FirstYear {
      StatsAscending(landCover, hi - 1);
    }
  }

  /** The statistics list exactly the years of the range below `hi` whose label raster exists. */
  lemma {:induction false} StatsCoverYears(landCover: map<int, Grid>, hi: int)
    ensures Years(YearlyStats(landCover, hi)) == YearsWithData(landCover, hi)
    decreases hi - FirstYear
  {
    if hi > FirstYear {
      var year := hi - 1;
      var before := YearlyStats(landCover, year);
      var r := YearlyStats(landCover, hi);
      StatsCoverYears(landCover, year);
      assert forall k :: 0 <= k < |before| ==> r[k] == before[k];
      assert Years(before) <= Years(r);
      assert year in landCover ==> r[|r| - 1].year == year;
      assert YearsWithData(landCover, hi) == YearsWithData(landCover, year) + (if year in landCover then {year} else {});
    }
  }

  /** The position of a year with data among the statistics. */
  lemma IndexOfYear(landCover: map<int, Grid>, y: int) returns (k: nat)
    requires Available(landCover, y)
    ensures k < |YearlyStats(landCover, EndYear)| && YearlyStats(landCover, EndYear)[k].year == y
  {
    var stats := YearlyStats(landCover, EndYear);
    StatsCoverYears(landCover, EndYear);
    assert y in YearsWithData(landCover, EndYear);
    assert y in Years(stats);
    k :| 0 <= k < |stats| && stats[k].year == y;
  }

  /** Two years with data mean two statistics or more. */
  ghost predicate TwoYearsWithData(landCover: map<int, Grid>) {
    exists y1, y2 :: Available(landCover, y1) && Available(landCover, y2) && y1 < y2
  }

  /** The change map runs exactly when at least two years have a label raster. */
  lemma ChangeRunsIffTwoYears(landCover: map<int, Grid>)
    ensures ChangeEndpoints(YearlyStats(landCover, EndYear)).Some? <==> TwoYearsWithData(landCover)
  {
    var stats := YearlyStats(landCover, EndYear);
    StatsAscending(landCover, EndYear);
    if |stats| >= 2 {
      var y1, y2 := stats[0].year, stats[1].year;
      assert Available(landCover, y1) && Available(landCover, y2) && y1 < y2;
    } else if TwoYearsWithData(landCover) {
      var y1, y2 :| Available(landCover, y1) && Available(landCover, y2) && y1 < y2;
      TwoYearsTwoStats(landCover, y1, y2);
    }
  }

  lemma TwoYearsTwoStats(landCover: map<int, Grid>, y1: int, y2: int)
    requires Available(landCover, y1) && Available(landCover, y2) && y1 < y2
    ensures |YearlyStats(landCover, EndYear)| >= 2
  {
    var k1 := IndexOfYear(landCover, y1);
    var k2 := IndexOfYear(landCover, y2);
    assert k1 != k2;
  }

  /**
   * When it runs, the change map compares the earliest with the latest
   * year that has a label raster.
   */
  lemma EndpointsAreEarliestAndLatest(landCover: map<int, Grid>)
    ensures var e := ChangeEndpoints(YearlyStats(landCover, EndYear));
      e.Some? ==>
        && Available(landCover, e.value.0) && Available(landCover, e.value.1)
        && e.value.0 < e.value.1
        && forall y :: Available(landCover, y) ==> e.value.0 <= y <= e.value.1
  {
    var stats := YearlyStats(landCover, EndYear);
    StatsAscending(landCover, EndYear);
    if |stats| >= 2 {
      var y1, y2 := stats[0].year, stats[|stats| - 1].year;
      forall y | Available(landCover, y)
        ensures y1 <= y <= y2
      {
        var k := IndexOfYear(landCover, y);
      }
    }
  }

  /**
   * The growth is the latest year's coverage minus the earliest's, and lies
   * between -100 and 100 points when both coverages are numbers.
   */
  lemma GrowthIsLatestMinusEarliest(landCover: map<int, Grid>)
    ensures var stats := YearlyStats(landCover, EndYear);
      var e := ChangeEndpoints(stats);
      var g := Growth(stats);
      && (g.Some? <==> e.Some?)
      && (g.Some? ==>
          && g.value == Difference(UrbanPercentage(landCover[e.value.1]), UrbanPercentage(landCover[e.value.0]))
          && (g.value.Pct? ==> -100.0 <= g.value.value <= 100.0))
  {
    var stats := YearlyStats(landCover, EndYear);
    StatsAscending(landCover, EndYear);
    if |stats| >= 2 {
      var first, last := stats[0], stats[|stats| - 1];
      assert first.pct == UrbanPercentage(landCover[first.year]);
      assert last.pct == UrbanPercentage(landCover[last.year]);
    }
  }

  /** Reading the year lines back from a report gives the statistics it was made from, in order. */
  lemma {:induction false} ReportReadsBack(stats: seq<YearStat>)
    ensures ReadYearLines(Report(stats)) == stats
  {
    var r := Report(stats);
    var years := r[..|stats|];
    assert forall k :: 0 <= k < |stats| ==> years[k] == YearLine(stats[k].year, stats[k].pct);
    YearLinesReadBack(years, stats);
    if |stats| >= 2 {
      assert r == years + [r[|r| - 1]];
      ReadYearLinesAppend(years, [r[|r| - 1]]);
      assert ReadYearLines([r[|r| - 1]]) == [];
    } else {
      assert r == years;
    }
  }

  lemma {:induction false} YearLinesReadBack(lines: seq<ReportLine>, stats: seq<YearStat>)
    requires |lines| == |stats|
    requires forall k :: 0 <= k < |stats| ==> lines[k] == YearLine(stats[k].year, stats[k].pct)
    ensures ReadYearLines(lines) == stats
  {
    if |lines| > 0 {
      YearLinesReadBack(lines[1..], stats[1..]);
      assert stats == [stats[0]] + stats[1..];
    }
  }

  lemma {:induction false} ReadYearLinesAppend(a: seq<ReportLine>, b: seq<ReportLine>)
    ensures ReadYearLines(a + b) == ReadYearLines(a) + ReadYearLines(b)
  {
    if |a| > 0 {
      assert (a + b)[1..] == a[1..] + b;
      ReadYearLinesAppend(a[1..], b);
    } else {
      assert a + b == b;
    }
  }

  /** A 4 x 4 start year: Grass everywhere but one Built Area pixel. */
  const ScenarioStart: Grid := [[6, 2, 2, 2], [2, 2, 2, 2], [2, 2, 2, 2], [2, 2, 2, 2]]
  /** A 4 x 4 end year: Built Area everywhere. */
  const ScenarioEnd: Grid := [[6, 6, 6, 6], [6, 6, 6, 6], [6, 6, 6, 6], [6, 6, 6, 6]]

  lemma ScenarioCoverage()
    ensures UrbanPercentage(ScenarioStart) == Pct(6.25)
    ensures UrbanPercentage(ScenarioEnd) == Pct(100.0)
  {
    assert Size(ScenarioStart) == 16 && UrbanPixels(ScenarioStart) == 1;
    assert Size(ScenarioEnd) == 16 && UrbanPixels(ScenarioEnd) == 16;
  }

  lemma ScenarioStats()
    ensures YearlyStats(map[2018 := ScenarioStart, 2025 := ScenarioEnd], EndYear)
            == [YearStat(2018, Pct(6.25)), YearStat(2025, Pct(100.0))]
  {
    var landCover := map[2018 := ScenarioStart, 2025 := ScenarioEnd];
    ScenarioCoverage();
    var first := [YearStat(2018, Pct(6.25))];
    assert YearlyStats(landCover, 2019) == first;
    assert YearlyStats(landCover, 2020) == first;
    assert YearlyStats(landCover, 2021) == first;
    assert YearlyStats(landCover, 2022) == first;
    assert YearlyStats(landCover, 2023) == first;
    assert YearlyStats(landCover, 2024) == first;
    assert YearlyStats(landCover, 2025) == first;
  }

  /**
   * The two scenario years: coverage goes from 6.25% to 100%, growth is
   * 93.75 points, and the mask is all 1s except the pixel that was
   * already urban.
   */
  lemma FourByFourScenario()
    ensures var stats := YearlyStats(map[2018 := ScenarioStart, 2025 := ScenarioEnd], EndYear);
      && stats == [YearStat(2018, Pct(6.25)), YearStat(2025, Pct(100.0))]
      && Growth(stats) == Some(Pct(93.75))
      && ChangeEndpoints(stats) == Some((2018, 2025))
      && NewUrbanMask(ScenarioStart, ScenarioEnd) == [[0, 1, 1, 1], [1, 1, 1, 1], [1, 1, 1, 1], [1, 1, 1, 1]]
  {
    ScenarioStats();
    ScenarioMask();
  }

  lemma ScenarioMask()
    ensures NewUrbanMask(ScenarioStart, ScenarioEnd) == [[0, 1, 1, 1], [1, 1, 1, 1], [1, 1, 1, 1], [1, 1, 1, 1]]
  {
    var m := NewUrbanMask(ScenarioStart, ScenarioEnd);
    forall i | 0 <= i < 4
      ensures m[i] == if i == 0 then [0, 1, 1, 1] else [1, 1, 1, 1]
    {
      assert |m[i]| == 4;
      assert forall j :: 0 <= j < 4 ==> m[i][j] == Flag(ScenarioStart[i][j], ScenarioEnd[i][j]);
    }
  }
}
