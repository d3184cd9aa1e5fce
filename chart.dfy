/**
 * CHART_DATA of reclass.js as prepareLineChartData builds it: the x-axis
 * labels "1".."35" and one dataset per selected job, in selection order.
 */
module ChartSeries {
  import opened Reshaper
  import opened Selection

  /** One element of `CHART_DATA.datasets`. */
  datatype Dataset = Dataset(
    seriesLabel: string,  // the dataset's `label`
    borderColor: string,
    backgroundColor: string,
    fill: bool,
    data: seq<int>,
    yAxisID: string)

  /** CHART_DATA: `{labels, datasets}`. */
  datatype ChartData = ChartData(labels: seq<string>, datasets: seq<Dataset>)

  function DigitChar(d: nat): char
    requires d < 10
  {
    (('0' as int) + d) as char
  }

  /** `String(n)` for a natural number: its decimal digits, most significant first. */
  function Decimal(n: nat): string
  {
    if n < 10 then [DigitChar(n)] else Decimal(n / 10) + [DigitChar(n % 10)]
  }

  predicate IsDigit(c: char)
  {
    '0' <= c <= '9'
  }

  /** Reads a string of decimal digits back as a number. */
  function ParseDecimal(s: string): nat
  {
    if s == [] then 0
    else
      var c := s[|s| - 1];
      ParseDecimal(s[..|s| - 1]) * 10 + (if IsDigit(c) then c as int - '0' as int else 0)
  }

  /**
   * `String(n)` is a non-empty string of digits without a leading zero
   * (except for 0 itself) that reads back as `n`.
   */
  lemma {:induction false} DecimalRoundTrip(n: nat)
    ensures |Decimal(n)| >= 1
    ensures forall k :: 0 <= k < |Decimal(n)| ==> IsDigit(Decimal(n)[k])
    ensures Decimal(n)[0] == '0' ==> n == 0
    ensures ParseDecimal(Decimal(n)) == n
  {
    if n >= 10 {
      DecimalRoundTrip(n / 10);
      var s := Decimal(n / 10);
      assert (s + [DigitChar(n % 10)])[..|s|] == s;
    }
  }

  /** The labels the first loop of prepareLineChartData pushes: `String(i + 1)` for i < n. */
  function Labels(n: nat): seq<string>
  {
    if n == 0 then [] else Labels(n - 1) + [Decimal(n)]
  }

  /** There are n labels, and label i is `String(i + 1)`. */
  lemma {:induction false} LabelsAt(n: nat)
    ensures |Labels(n)| == n
    ensures forall i :: 0 <= i < n ==> Labels(n)[i] == Decimal(i + 1)
  {
    if n > 0 {
      LabelsAt(n - 1);
    }
  }

  /** Label i reads back as year of service i + 1. */
  lemma LabelsReadBack(n: nat, i: nat)
    requires i < n
    ensures |Labels(n)| == n
    ensures ParseDecimal(Labels(n)[i]) == i + 1
  {
    LabelsAt(n);
    DecimalRoundTrip(i + 1);
  }

  /** The dataset pushed for one selected job. */
  function DatasetOf(e: Entry, cat: Catalog): Dataset
    requires Listed(e, cat)
  {
    Dataset(e.district + " - " + e.position, "#" + e.color, "#" + e.color, false,
            PayOfEntry(e, cat), "payAxis")
  }

  /**
   * The datasets the second loop pushes: one per selected job, in order,
   * stopping at the first job the catalog lacks (where the lookup throws).
   */
  function DatasetsOf(sel: seq<Entry>, cat: Catalog): seq<Dataset>
  {
    if sel == [] || !Listed(sel[0], cat) then []
    else [DatasetOf(sel[0], cat)] + DatasetsOf(sel[1..], cat)
  }

  /** The datasets from a listed entry on start with that entry's dataset. */
  lemma DatasetsFrom(sel: seq<Entry>, s: int, cat: Catalog)
    requires 0 <= s < |sel| && Listed(sel[s], cat)
    ensures DatasetsOf(sel[s..], cat) == [DatasetOf(sel[s], cat)] + DatasetsOf(sel[s + 1..], cat)
  {
    assert sel[s..][1..] == sel[s + 1..];
  }

  /**
   * With every selected job in the catalog there is one dataset per job,
   * in selection order, labelled "district - position", coloured '#' +
   * the entry's colour, and carrying the job's pay series.
   */
  lemma {:induction false} DatasetsAt(sel: seq<Entry>, cat: Catalog)
    requires AllListed(sel, cat)
    ensures |DatasetsOf(sel, cat)| == |sel|
    ensures forall k :: 0 <= k < |sel| ==>
      var ds := DatasetsOf(sel, cat)[k];
      && ds.seriesLabel == sel[k].district + " - " + sel[k].position
      && ds.borderColor == "#" + sel[k].color
      && ds.backgroundColor == "#" + sel[k].color
      && ds.data == PayOfEntry(sel[k], cat)
  {
    if sel != [] {
      assert AllListed(sel[1..], cat) by {
        forall k | 0 <= k < |sel[1..]| ensures Listed(sel[1..][k], cat) {
          assert sel[1..][k] == sel[k + 1];
        }
      }
      DatasetsAt(sel[1..], cat);
      forall k | 1 <= k < |sel|
        ensures DatasetsOf(sel, cat)[k] == DatasetsOf(sel[1..], cat)[k - 1]
      {
      }
    }
  }

  /**
   * When some selected job is missing from the catalog, the datasets stop
   * just before the first such job.
   */
  lemma {:induction false} DatasetsStop(sel: seq<Entry>, cat: Catalog)
    requires !AllListed(sel, cat)
    ensures |DatasetsOf(sel, cat)| < |sel|
    ensures !Listed(sel[|DatasetsOf(sel, cat)|], cat)
    ensures forall k :: 0 <= k < |DatasetsOf(sel, cat)| ==> Listed(sel[k], cat)
  {
    if Listed(sel[0], cat) {
      assert !AllListed(sel[1..], cat) by {
        var k :| 0 <= k < |sel| && !Listed(sel[k], cat);
        assert sel[1..][k - 1] == sel[k];
      }
      DatasetsStop(sel[1..], cat);
      forall k | 1 <= k < |DatasetsOf(sel, cat)|
        ensures Listed(sel[k], cat)
      {
        assert sel[1..][k - 1] == sel[k];
      }
    }
  }

  /** The first loop of prepareLineChartData: push `String(i + 1)` for each i < n. */
  method BuildLabels(n: nat) returns (labels: seq<string>)
    ensures labels == Labels(n)
  {
    labels := [];
    var i := 0;
    while i < n
      invariant 0 <= i <= n
      invariant labels == Labels(i)
    {
      labels := labels + [Decimal(i + 1)];
      i := i + 1;
    }
  }

  /**
   * The second loop of prepareLineChartData: push one dataset per selected
   * job. `completed` is false when a job is missing from the catalog; the
   * datasets pushed before the lookup threw are kept.
   */
  method BuildDatasets(sel: seq<Entry>, cat: Catalog) returns (datasets: seq<Dataset>, completed: bool)
    ensures datasets == DatasetsOf(sel, cat)
    ensures completed == AllListed(sel, cat)
  {
    datasets := [];
    var s := 0;
    while s < |sel|
      invariant 0 <= s <= |sel|
      invariant datasets + DatasetsOf(sel[s..], cat) == DatasetsOf(sel, cat)
      invariant forall k :: 0 <= k < s ==> Listed(sel[k], cat)
    {
      var entry := sel[s];
      if !(entry.district in cat && entry.position in cat[entry.district]) {
        return datasets, false;
      }
      DatasetsFrom(sel, s, cat);
      var dataset := Dataset(entry.district + " - " + entry.position, "#" + entry.color,
                             "#" + entry.color, false, cat[entry.district][entry.position].pay, "payAxis");
      assert dataset == DatasetOf(entry, cat);
      datasets := datasets + [dataset];
      s := s + 1;
    }
    completed := true;
  }

  /** CHART_DATA after prepareLineChartData with the window's 35 years of service. */
  function ChartOf(sel: seq<Entry>, cat: Catalog): ChartData
  {
    ChartData(Labels(Years), DatasetsOf(sel, cat))
  }
}
