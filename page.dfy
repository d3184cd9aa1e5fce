/**
 * The page state of reclass.js and the handlers that change it. The
 * globals DATA, SELECTED_JOBS, YEARS_OF_SERVICE, CHART_DATA, COLOR_INDEX,
 * MAX_DISPLAY_SALARY and MIN_DISPLAY_SALARY are the fields of one Page
 * object. DOM updates (badges, button visibility, menus) and the Chart.js
 * calls are not modelled; where the source redraws the chart, only the
 * data preparation (prepareLineChartData) is.
 */
module Reclass {
  import opened Reshaper
  import opened Palette
  import opened Selection
  import opened Windowing
  import opened ChartSeries
  import MenuIds

  class Page {
    /** DATA */
    var data: Catalog
    /** SELECTED_JOBS */
    var selectedJobs: seq<Entry>
    /** YEARS_OF_SERVICE */
    var yearsOfService: int
    /** CHART_DATA */
    var chartData: ChartData
    /** COLOR_INDEX */
    var colorIndex: nat
    /** MAX_DISPLAY_SALARY */
    var maxDisplaySalary: int
    /** MIN_DISPLAY_SALARY */
    var minDisplaySalary: int
    /** How many times jobSelectParse has run. */
    ghost var selectCalls: nat

    ghost predicate Valid()
      reads this
    {
      && yearsOfService == Years
      && colorIndex == CursorAfter(selectCalls)
      && DistinctPairs(selectedJobs)
      && WellFormed(data)
    }

    /**
     * The script's globals as loaded, then the synchronous part of the
     * document-ready handler: the first chart preparation, with nothing
     * selected and DATA still empty.
     */
    constructor ()
      ensures Valid()
      ensures data == map[] && selectedJobs == [] && colorIndex == 0 && selectCalls == 0
      ensures maxDisplaySalary == DefaultMaxSalary && minDisplaySalary == DefaultMinSalary
      ensures chartData == ChartOf([], map[])
    {
      data := map[];
      selectedJobs := [];
      yearsOfService := Years;
      chartData := ChartData([], []);
      colorIndex := 0;
      maxDisplaySalary := DefaultMaxSalary;
      minDisplaySalary := DefaultMinSalary;
      selectCalls := 0;
      new;
      var _ := PrepareLineChartData();
    }

    /**
     * The success callback of the data download: `DATA = reFormatData(...)`.
     * When reFormatData throws, DATA keeps its value.
     */
    method Load(rows: seq<Row>)
      requires Valid()
      modifies this
      ensures Valid()
      ensures data == if Reshaped(rows).Success? then Reshaped(rows).value else old(data)
      ensures selectedJobs == old(selectedJobs) && chartData == old(chartData)
      ensures colorIndex == old(colorIndex) && selectCalls == old(selectCalls)
      ensures maxDisplaySalary == old(maxDisplaySalary) && minDisplaySalary == old(minDisplaySalary)
    {
      var r := ReFormatData(rows);
      if r.Success? {
        ReshapedWellFormed(rows);
        data := r.value;
      }
    }

    /** resetChart(draw): the default window, then a redraw when `draw` is set. */
    method ResetChart(draw: bool)
      requires Valid()
      modifies this`maxDisplaySalary, this`minDisplaySalary, this`yearsOfService, this`chartData
      ensures Valid()
      ensures maxDisplaySalary == DefaultMaxSalary && minDisplaySalary == DefaultMinSalary
      ensures yearsOfService == Years
      ensures chartData == if draw then ChartOf(selectedJobs, data) else old(chartData)
      ensures data == old(data) && selectedJobs == old(selectedJobs)
      ensures colorIndex == old(colorIndex) && selectCalls == old(selectCalls)
    {
      maxDisplaySalary := DefaultMaxSalary;
      minDisplaySalary := DefaultMinSalary;
      yearsOfService := Years;
      if draw {
        var _ := PrepareLineChartData();
      }
    }

    /**
     * prepareLineChartData: the labels, then one dataset per selected job.
     * `completed` is false when a selected job is missing from DATA, where
     * the source throws a TypeError after pushing the datasets before it.
     */
    method PrepareLineChartData() returns (completed: bool)
      requires Valid()
      modifies this`chartData
      ensures chartData == ChartOf(selectedJobs, data)
      ensures completed == AllListed(selectedJobs, data)
    {
      var labels := BuildLabels(yearsOfService);
      var datasets;
      datasets, completed := BuildDatasets(selectedJobs, data);
      chartData := ChartData(labels, datasets);
    }

    /**
     * The colour step of jobSelectParse: wrap COLOR_INDEX to 0 when
     * `COLOR_INDEX + 1 > COLORS.length`, then `COLORS[COLOR_INDEX++]`.
     */
    method NextColor() returns (color: string)
      requires Valid()
      modifies this`colorIndex, this`selectCalls
      ensures Valid()
      ensures color == Colors[old(selectCalls) % |Colors|]
      ensures colorIndex == WrapCursor(old(colorIndex)) + 1
      ensures selectCalls == old(selectCalls) + 1
    {
      if colorIndex + 1 > |Colors| {
        colorIndex := 0;
      }
      ColorOfCall(selectCalls);
      color := Colors[colorIndex];
      colorIndex := colorIndex + 1;
      selectCalls := selectCalls + 1;
    }

    /**
     * jobSelectParse(id) for the menu `id` whose selected option is
     * `position`: reset the window, take the next colour, and append the
     * job unless its (district, position) pair is already selected; the
     * chart is redrawn only when the job was appended.
     */
    method JobSelectParse(id: string, position: string)
      requires Valid()
      modifies this
      ensures Valid()
      ensures maxDisplaySalary == DefaultMaxSalary && minDisplaySalary == DefaultMinSalary
      ensures selectCalls == old(selectCalls) + 1
      ensures colorIndex == WrapCursor(old(colorIndex)) + 1
      ensures var entry := Entry(MenuIds.DistrictOfId(id), position, Colors[old(selectCalls) % |Colors|]);
        selectedJobs == Added(old(selectedJobs), entry)
      ensures var d := MenuIds.DistrictOfId(id);
        chartData == if HasPair(old(selectedJobs), d, position) then old(chartData)
                     else ChartOf(selectedJobs, data)
      ensures data == old(data)
    {
      ResetChart(false);
      var color := NextColor();
      var entry := Entry(MenuIds.DistrictOfId(id), position, color);
      var duplicate := FindPair(selectedJobs, entry.district, entry.position);
      if duplicate {
        return;
      }
      AddedKeepsDistinct(selectedJobs, entry);
      selectedJobs := selectedJobs + [entry];
      var _ := PrepareLineChartData();
    }

    /**
     * removeBadge(index): slice the entry out when `index + 1 < length`,
     * otherwise pop the last entry; then redraw.
     */
    method RemoveBadge(index: nat)
      requires Valid()
      modifies this
      ensures Valid()
      ensures selectedJobs == Removed(old(selectedJobs), index)
      ensures chartData == ChartOf(selectedJobs, data)
      ensures data == old(data) && colorIndex == old(colorIndex) && selectCalls == old(selectCalls)
      ensures maxDisplaySalary == old(maxDisplaySalary) && minDisplaySalary == old(minDisplaySalary)
    {
      RemovedKeepsDistinct(selectedJobs, index);
      if index + 1 < |selectedJobs| {
        selectedJobs := selectedJobs[..index] + selectedJobs[index + 1..];
      } else if |selectedJobs| > 0 {
        selectedJobs := selectedJobs[..|selectedJobs| - 1];
      }
      var _ := PrepareLineChartData();
    }

    /**
     * The trim button handler: the largest final-year pay and the smallest
     * first-year pay among the selected jobs, rounded outward to multiples
     * of $5000, become the window; then redraw. `completed` is false when a
     * selected job is missing from DATA: the lookup throws before any
     * global is assigned.
     */
    method TrimClick() returns (completed: bool)
      requires Valid()
      modifies this
      ensures Valid()
      ensures completed == AllListed(selectedJobs, data)
      ensures completed ==> maxDisplaySalary == TrimmedMax(selectedJobs, data)
      ensures completed ==> minDisplaySalary == TrimmedMin(selectedJobs, data)
      ensures completed ==> chartData == ChartOf(selectedJobs, data)
      ensures !completed ==> maxDisplaySalary == old(maxDisplaySalary) && minDisplaySalary == old(minDisplaySalary)
      ensures !completed ==> chartData == old(chartData)
      ensures data == old(data) && selectedJobs == old(selectedJobs)
      ensures colorIndex == old(colorIndex) && selectCalls == old(selectCalls)
    {
      var max, min;
      completed, max, min := ScanExtremes(selectedJobs, data);
      if !completed {
        return;
      }
      maxDisplaySalary := RoundUpToStep(max);
      minDisplaySalary := RoundDownToStep(min);
      var _ := PrepareLineChartData();
    }
  }
}
