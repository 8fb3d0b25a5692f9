/** The two statistics files of a region: summary_stat.tsv (one row per
    measure, one column per sample, '.' for falsy values) and histogram.tsv
    (one row per bin 0.0 .. 1.0, one column per sample, '0' for falsy
    values). Both hold only their header unless the ratio list of the last
    requested sample is non-empty. */
module Report {
  import opened Common
  import opened Stats

  /** The measures of summary_stat.tsv, in file order. */
  datatype Measure = Average | StdDev | P10 | P25 | Median | P75 | P90
  {
    /** The row label. */
    function Label(): string
    {
      match this
      case Average => "average"
      case StdDev => "stdev"
      case P10 => "p10"
      case P25 => "p25"
      case Median => "p50"
      case P75 => "p75"
      case P90 => "p90"
    }

    /** The row of the measure after the header, counting from 0. */
    function Index(): (i: nat)
      ensures i < 7
    {
      match this
      case Average => 0
      case StdDev => 1
      case P10 => 2
      case P25 => 3
      case Median => 4
      case P75 => 5
      case P90 => 6
    }

    predicate IsPercentile() { P10? || P25? || P75? || P90? }

    /** The percent the percentile rows pass to `percentile`. */
    function Percent(): (p: real)
      requires IsPercentile()
      ensures 0.0 <= p <= 1.0
    {
      match this
      case P10 => 0.1
      case P25 => 0.25
      case P75 => 0.75
      case P90 => 0.9
    }
  }

  /** The ratios a sample's list stands for: bin index / 10. */
  function Ratios(bins: seq<nat>): (r: seq<real>)
    ensures |r| == |bins|
  {
    if bins == [] then [] else Ratios(bins[..|bins| - 1]) + [bins[|bins| - 1] as real / 10.0]
  }

  /** Entry `i` of the ratios is bin `i` in tenths. */
  lemma {:induction false} RatiosSpec(bins: seq<nat>)
    ensures forall i :: 0 <= i < |bins| ==> Ratios(bins)[i] == bins[i] as real / 10.0
  {
    if bins != [] {
      RatiosSpec(bins[..|bins| - 1]);
    }
  }

  /** One cell of the summary: statistics.stdev and statistics.median are
      passed in; stdev is '.' for fewer than two values. */
  function Cell(col: seq<real>, m: Measure, stdev: seq<real> -> real, median: seq<real> -> real): Value
    requires |col| > 0
  {
    match m
    case Average => Real(Mean(col))
    case StdDev => if |col| >= 2 then Real(stdev(col)) else Str(".")
    case Median => Real(median(col))
    case _ => OptReal(Percentile(col, m.Percent()))
  }

  function Cells(cols: seq<seq<real>>, m: Measure, stdev: seq<real> -> real, median: seq<real> -> real): (r: seq<Value>)
    requires forall j :: 0 <= j < |cols| ==> |cols[j]| > 0
    ensures |r| == |cols|
    ensures forall j :: 0 <= j < |cols| ==> r[j] == Cell(cols[j], m, stdev, median)
  {
    if cols == [] then []
    else Cells(cols[..|cols| - 1], m, stdev, median) + [Cell(cols[|cols| - 1], m, stdev, median)]
  }

  /** The row of one measure: its label, then one cell per sample, falsy
      values written as '.'. */
  function MeasureRow(cols: seq<seq<real>>, m: Measure, stdev: seq<real> -> real, median: seq<real> -> real): Line
    requires forall j :: 0 <= j < |cols| ==> |cols[j]| > 0
  {
    Row(NormalizeRow([Str(m.Label())] + Cells(cols, m, stdev, median), "."))
  }

  /** There is a last list, and when it is non-empty no list is empty. */
  predicate StatsDefined(cols: seq<seq<real>>)
  {
    |cols| > 0 && (|cols[|cols| - 1]| > 0 ==> forall j :: 0 <= j < |cols| ==> |cols[j]| > 0)
  }

  /** The measures in the order summary_stat.tsv lists them. */
  const Measures: seq<Measure> := [Average, StdDev, P10, P25, Median, P75, P90]

  /** The rows of the measures `ms`, in order. */
  function MeasureRows(cols: seq<seq<real>>, ms: seq<Measure>, stdev: seq<real> -> real, median: seq<real> -> real)
    : (r: seq<Line>)
    requires forall j :: 0 <= j < |cols| ==> |cols[j]| > 0
    ensures |r| == |ms|
  {
    if ms == [] then []
    else MeasureRows(cols, ms[..|ms| - 1], stdev, median) + [MeasureRow(cols, ms[|ms| - 1], stdev, median)]
  }

  lemma {:induction false} MeasureRowsSpec(cols: seq<seq<real>>, ms: seq<Measure>, stdev: seq<real> -> real,
                                           median: seq<real> -> real)
    requires forall j :: 0 <= j < |cols| ==> |cols[j]| > 0
    ensures forall i :: 0 <= i < |ms| ==> MeasureRows(cols, ms, stdev, median)[i] == MeasureRow(cols, ms[i], stdev, median)
  {
    if ms != [] {
      var init := ms[..|ms| - 1];
      MeasureRowsSpec(cols, init, stdev, median);
      var rows := MeasureRows(cols, init, stdev, median);
      assert MeasureRows(cols, ms, stdev, median) == rows + [MeasureRow(cols, ms[|ms| - 1], stdev, median)];
      forall i | 0 <= i < |ms|
        ensures MeasureRows(cols, ms, stdev, median)[i] == MeasureRow(cols, ms[i], stdev, median)
      {
        if i < |init| {
          assert init[i] == ms[i];
        }
      }
    }
  }

  /** summary_stat.tsv. `cols[j]` is the ratio list of `samples[j]`; the
      measure rows are written only when the list of the last sample is
      non-empty, and then every list must be (statistics.mean and
      statistics.median reject an empty list). */
  function SummaryLines(samples: seq<string>, cols: seq<seq<real>>, stdev: seq<real> -> real, median: seq<real> -> real): (r: seq<Line>)
    requires |cols| == |samples| && StatsDefined(cols)
  {
    var header := Header(["#measure"] + samples);
    if |cols[|cols| - 1]| > 0 then [header] + MeasureRows(cols, Measures, stdev, median) else [header]
  }

  /** The summary is the header, then, exactly when the last sample's list
      is non-empty, the seven measure rows in the order average, stdev, p10,
      p25, p50, p75, p90. */
  lemma SummaryLayout(samples: seq<string>, cols: seq<seq<real>>, stdev: seq<real> -> real, median: seq<real> -> real)
    requires |cols| == |samples| && StatsDefined(cols)
    ensures var r := SummaryLines(samples, cols, stdev, median);
      |r| == (if |cols[|cols| - 1]| > 0 then 8 else 1) && r[0] == Header(["#measure"] + samples) &&
      (|cols[|cols| - 1]| > 0 ==> forall m: Measure :: r[m.Index() + 1] == MeasureRow(cols, m, stdev, median))
  {
    var r := SummaryLines(samples, cols, stdev, median);
    if |cols[|cols| - 1]| > 0 {
      MeasureRowsSpec(cols, Measures, stdev, median);
      forall m: Measure ensures r[m.Index() + 1] == MeasureRow(cols, m, stdev, median) {
        assert Measures[m.Index()] == m;
      }
    }
  }

  /** A measure row has the label and one cell per sample, none of them
      empty; each cell is the measure of that sample's list. */
  lemma MeasureRowSpec(cols: seq<seq<real>>, m: Measure, stdev: seq<real> -> real, median: seq<real> -> real)
    requires forall j :: 0 <= j < |cols| ==> |cols[j]| > 0
    ensures var row := MeasureRow(cols, m, stdev, median);
      row.Row? && |row.cells| == |cols| + 1 && row.cells[0] == Str(m.Label()) &&
      (forall c :: c in row.cells ==> !Falsy(c)) &&
      forall j :: 0 <= j < |cols| ==> row.cells[j + 1] == Normalize(Cell(cols[j], m, stdev, median), ".")
  {
    var row := MeasureRow(cols, m, stdev, median);
    var cells := Cells(cols, m, stdev, median);
    var raw := [Str(m.Label())] + cells;
    assert row.cells == NormalizeRow(raw, ".");
    assert row.cells[0] == Normalize(raw[0], ".");
    assert m.Label() != [];
    forall c | c in row.cells ensures !Falsy(c) {
      var k :| 0 <= k < |row.cells| && row.cells[k] == c;
      assert c == Normalize(raw[k], ".");
    }
    forall j | 0 <= j < |cols|
      ensures row.cells[j + 1] == Normalize(Cell(cols[j], m, stdev, median), ".")
    {
      assert raw[j + 1] == cells[j];
    }
  }

  /** The stdev cell of a list of fewer than two ratios is '.'. */
  lemma StdDevCell(cols: seq<seq<real>>, stdev: seq<real> -> real, median: seq<real> -> real, j: nat)
    requires forall j :: 0 <= j < |cols| ==> |cols[j]| > 0
    requires j < |cols| && |cols[j]| < 2
    ensures MeasureRow(cols, StdDev, stdev, median).cells[j + 1] == Str(".")
  {
    MeasureRowSpec(cols, StdDev, stdev, median);
  }

  /** The p10, p25, p75 and p90 cells are the percentiles of each list in
      its position order, '.' when that percentile is 0. */
  lemma PercentileCell(cols: seq<seq<real>>, m: Measure, stdev: seq<real> -> real, median: seq<real> -> real, j: nat)
    requires forall j :: 0 <= j < |cols| ==> |cols[j]| > 0
    requires m.IsPercentile() && j < |cols|
    ensures Percentile(cols[j], m.Percent()).Some?
    ensures MeasureRow(cols, m, stdev, median).cells[j + 1] ==
      Normalize(Real(Percentile(cols[j], m.Percent()).value), ".")
  {
    MeasureRowSpec(cols, m, stdev, median);
  }

  /** The label of a histogram row: the float n/10 as str() writes it.
      The label is already a non-empty string when the row is normalised,
      so even the 0.0 row keeps it. */
  function BinLabel(b: nat): Value
  {
    Real(b as real / 10.0)
  }

  function CountCells(column: map<string, nat>, samples: seq<string>): (r: seq<Value>)
    requires forall s :: s in samples ==> s in column
    ensures |r| == |samples|
    ensures forall j :: 0 <= j < |samples| ==> r[j] == Normalize(Int(column[samples[j]]), "0")
  {
    if samples == [] then []
    else CountCells(column, samples[..|samples| - 1]) + [Normalize(Int(column[samples[|samples| - 1]]), "0")]
  }

  function BinRows(counts: map<nat, map<string, nat>>, samples: seq<string>, n: nat): (r: seq<Line>)
    requires n <= 11
    requires forall b: nat :: b <= 10 ==> b in counts && forall s :: s in samples ==> s in counts[b]
    ensures |r| == n
    ensures forall b :: 0 <= b < n ==> r[b] == Row([BinLabel(b)] + CountCells(counts[b], samples))
  {
    if n == 0 then [] else BinRows(counts, samples, n - 1) + [Row([BinLabel(n - 1)] + CountCells(counts[n - 1], samples))]
  }

  /** histogram.tsv: the header, then, when `hasData`, the eleven bin rows. */
  function HistogramLines(samples: seq<string>, counts: map<nat, map<string, nat>>, hasData: bool): seq<Line>
    requires forall b: nat :: b <= 10 ==> b in counts && forall s :: s in samples ==> s in counts[b]
  {
    var header := Header(["#methRatio"] + samples);
    if hasData then [header] + BinRows(counts, samples, 11) else [header]
  }

  /** The histogram is its header, then, when `hasData`, exactly eleven rows
      for the bins 0.0 .. 1.0 in order, each with one count per sample
      written as the count or, for a zero count, '0'. */
  lemma HistogramLayout(samples: seq<string>, counts: map<nat, map<string, nat>>, hasData: bool)
    requires forall b: nat :: b <= 10 ==> b in counts && forall s :: s in samples ==> s in counts[b]
    ensures var r := HistogramLines(samples, counts, hasData);
      |r| == (if hasData then 12 else 1) && r[0] == Header(["#methRatio"] + samples) &&
      (hasData ==> forall b: nat :: b <= 10 ==>
        r[b + 1].Row? && |r[b + 1].cells| == |samples| + 1 &&
        r[b + 1].cells[0] == Real(b as real / 10.0) &&
        forall j :: 0 <= j < |samples| ==>
          r[b + 1].cells[j + 1] == (if counts[b][samples[j]] == 0 then Str("0") else Int(counts[b][samples[j]])))
  {
    var r := HistogramLines(samples, counts, hasData);
    if hasData {
      var rows := BinRows(counts, samples, 11);
      assert r == [Header(["#methRatio"] + samples)] + rows;
      forall b: nat | b <= 10
        ensures r[b + 1].Row? && |r[b + 1].cells| == |samples| + 1 &&
          r[b + 1].cells[0] == Real(b as real / 10.0) &&
          forall j :: 0 <= j < |samples| ==>
            r[b + 1].cells[j + 1] == (if counts[b][samples[j]] == 0 then Str("0") else Int(counts[b][samples[j]]))
      {
        var cells := CountCells(counts[b], samples);
        assert r[b + 1] == rows[b] == Row([BinLabel(b)] + cells);
        forall j | 0 <= j < |samples|
          ensures r[b + 1].cells[j + 1] == (if counts[b][samples[j]] == 0 then Str("0") else Int(counts[b][samples[j]]))
        {
          assert r[b + 1].cells[j + 1] == cells[j] == Normalize(Int(counts[b][samples[j]]), "0");
        }
      }
    }
  }
}
