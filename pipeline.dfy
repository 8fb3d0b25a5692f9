/** `get_region` as a sequence of writes to the output directory: the
    per-sample meth_cg files, the two diff files, the two statistics files
    and the segments file of one region. The directory is a map from file
    to its lines; the two HTTP responses (the position records and the
    segment records) are parameters. */
module Pipeline {
  import opened Common
  import opened Measure
  import opened Accumulator
  import opened Diffmeth
  import opened Report
  import opened Segments

  const MethHeader: Line := Header(
    ["#chrom", "pos", "genotype",
     "w_methylatedReads", "w_coverage", "w_phredScore",
     "c_methylatedReads", "c_coverage", "c_phredScore",
     "methylatedReads", "coverage", "phredScore",
     "w_methRatio", "c_methRatio", "methRatio"])

  /** What a region run ended with: no position data (nothing written), all
      files written, or the exception that ends the program. */
  datatype Outcome = NoData | Done | Aborted(fault: Fault)

  predicate Distinct(samples: seq<string>)
  {
    forall a, b :: 0 <= a < |samples| && 0 <= b < |samples| && a != b ==> samples[a] != samples[b]
  }

  /** Every position row of results has one entry per sample. */
  predicate Rectangular(mss: seq<seq<Measured>>, n: nat)
  {
    forall i :: 0 <= i < |mss| ==> |mss[i]| == n
  }

  // ---------------------------------------------------------------- specifications

  /** The data rows of the meth_cg file of sample `j`: its measurement at
      each position, in position order. */
  function MethRows(mss: seq<seq<Measured>>, j: nat): (r: seq<Line>)
    requires forall i :: 0 <= i < |mss| ==> j < |mss[i]|
    ensures |r| == |mss|
    ensures forall i :: 0 <= i < |mss| ==> r[i] == Row(mss[i][j].row)
  {
    if mss == [] then [] else MethRows(mss[..|mss| - 1], j) + [Row(mss[|mss| - 1][j].row)]
  }

  /** meth_ratio[sample] of sample `j` after the positions: its bin at each
      position, in position order. */
  function BinsOf(mss: seq<seq<Measured>>, j: nat): (r: seq<nat>)
    requires forall i :: 0 <= i < |mss| ==> j < |mss[i]|
    ensures |r| == |mss|
  {
    if mss == [] then [] else BinsOf(mss[..|mss| - 1], j) + [mss[|mss| - 1][j].bin]
  }

  /** Entry `i` of a sample's list is its bin at position `i`. */
  lemma {:induction false} BinsOfSpec(mss: seq<seq<Measured>>, j: nat)
    requires forall i :: 0 <= i < |mss| ==> j < |mss[i]|
    ensures forall i :: 0 <= i < |mss| ==> BinsOf(mss, j)[i] == mss[i][j].bin
  {
    if mss != [] {
      BinsOfSpec(mss[..|mss| - 1], j);
    }
  }

  /** The ratio lists the summary reads, one per sample. */
  function Columns(mss: seq<seq<Measured>>, n: nat): (r: seq<seq<real>>)
    requires forall i :: 0 <= i < |mss| ==> n <= |mss[i]|
    ensures |r| == n
    ensures forall j :: 0 <= j < n ==> r[j] == Ratios(BinsOf(mss, j))
  {
    if n == 0 then [] else Columns(mss, n - 1) + [Ratios(BinsOf(mss, n - 1))]
  }

  /** The same lists, read from the accumulator. */
  function RatioColumns(ratios: map<string, seq<nat>>, samples: seq<string>): (r: seq<seq<real>>)
    requires forall s :: s in samples ==> s in ratios
    ensures |r| == |samples|
    ensures forall j :: 0 <= j < |samples| ==> r[j] == Ratios(ratios[samples[j]])
  {
    if samples == [] then []
    else RatioColumns(ratios, samples[..|samples| - 1]) + [Ratios(ratios[samples[|samples| - 1]])]
  }

  function AsRows(rows: seq<seq<Value>>): (r: seq<Line>)
    ensures |r| == |rows|
    ensures forall i :: 0 <= i < |rows| ==> r[i] == Row(rows[i])
  {
    if rows == [] then [] else AsRows(rows[..|rows| - 1]) + [Row(rows[|rows| - 1])]
  }

  /** The meth_cg file of one of the requested samples in this region. */
  predicate IsMethFile(n: FileName, region: Region, samples: seq<string>)
  {
    n.MethCg? && n.region == region && n.sample in samples
  }

  /** The diff file of `kind` in this region. */
  function DiffName(region: Region, kind: Kind): FileName
  {
    match kind
    case Intra => Intraindividual(region)
    case Inter => Interindividual(region)
  }

  /** A file of this region that `get_region` may write. */
  predicate Touched(n: FileName, region: Region, samples: seq<string>)
  {
    n.region == region && (n.MethCg? ==> n.sample in samples)
  }

  predicate MethFilesHold(files: map<FileName, seq<Line>>, region: Region, samples: seq<string>, mss: seq<seq<Measured>>)
    requires Rectangular(mss, |samples|)
  {
    forall j :: 0 <= j < |samples| ==>
      MethCg(region, samples[j]) in files && files[MethCg(region, samples[j])] == [MethHeader] + MethRows(mss, j)
  }

  predicate DiffFilesHold(before: map<FileName, seq<Line>>, files: map<FileName, seq<Line>>,
                          region: Region, data: seq<Position>, samples: seq<string>)
  {
    (data != [] ==> AllSplit(samples)) &&
    Get(files, Intraindividual(region)) == DiffAfter(Get(before, Intraindividual(region)), data, samples, Intra) &&
    Get(files, Interindividual(region)) == DiffAfter(Get(before, Interindividual(region)), data, samples, Inter)
  }

  /** A bin row of histogram.tsv: the bin label, one cell per sample, and
      in the cell of sample `j` the count `c`, '0' for none. */
  predicate BinCell(row: Line, b: nat, width: nat, j: nat, c: nat)
  {
    row.Row? && |row.cells| == width + 1 && row.cells[0] == BinLabel(b) &&
    j < width && row.cells[j + 1] == (if c == 0 then Str("0") else Int(c))
  }

  /** histogram.tsv after a region with data: eleven bin rows, each cell
      the number of positions whose ratio fell into that bin for that
      sample. */
  predicate HistogramHolds(h: seq<Line>, samples: seq<string>, mss: seq<seq<Measured>>)
    requires Rectangular(mss, |samples|)
  {
    |h| == 12 && h[0] == Header(["#methRatio"] + samples) &&
    forall b: nat, j :: b <= 10 && 0 <= j < |samples| ==>
      BinCell(h[b + 1], b, |samples|, j, Occurrences(BinsOf(mss, j), b))
  }

  predicate SegmentFileHolds(before: map<FileName, seq<Line>>, files: map<FileName, seq<Line>>,
                             region: Region, segs: seq<Segment>, samples: seq<string>)
    requires segs != [] ==> SegmentLines(segs, samples).Success?
  {
    if segs == [] || SegmentLines(segs, samples).value == [] then
      Get(files, SegmentFile(region)) == Get(before, SegmentFile(region))
    else
      Get(files, SegmentFile(region)) == Some([SegmentHeader] + AsRows(SegmentLines(segs, samples).value))
  }

  ghost predicate OthersUnchanged(before: map<FileName, seq<Line>>, files: map<FileName, seq<Line>>,
                            region: Region, samples: seq<string>)
  {
    forall n :: !Touched(n, region, samples) ==> Get(files, n) == Get(before, n)
  }

  /** The directory after each requested sample's meth_cg file was
      (re)written with its header. */
  function MethHeaders(files: map<FileName, seq<Line>>, region: Region, samples: seq<string>): map<FileName, seq<Line>>
  {
    if samples == [] then files
    else MethHeaders(files, region, samples[..|samples| - 1])[MethCg(region, samples[|samples| - 1]) := [MethHeader]]
  }

  /** The cells of bin `b`: per sample the number of its ratios in that
      bin, '0' for none. */
  function BinCounts(mss: seq<seq<Measured>>, n: nat, b: nat): (r: seq<Value>)
    requires forall i :: 0 <= i < |mss| ==> n <= |mss[i]|
    ensures |r| == n
    ensures forall j :: 0 <= j < n ==> r[j] == Normalize(Int(Occurrences(BinsOf(mss, j), b)), "0")
  {
    if n == 0 then [] else BinCounts(mss, n - 1, b) + [Normalize(Int(Occurrences(BinsOf(mss, n - 1), b)), "0")]
  }

  /** The first `n` bin rows of histogram.tsv. */
  function HistogramRows(mss: seq<seq<Measured>>, width: nat, n: nat): (r: seq<Line>)
    requires Rectangular(mss, width)
    ensures |r| == n
    ensures forall b :: 0 <= b < n ==> r[b] == Row([BinLabel(b)] + BinCounts(mss, width, b))
  {
    if n == 0 then [] else HistogramRows(mss, width, n - 1) + [Row([BinLabel(n - 1)] + BinCounts(mss, width, n - 1))]
  }

  /** histogram.tsv as the measurements determine it: the header, then
      one row per bin 0.0 .. 1.0. */
  function HistogramOf(samples: seq<string>, mss: seq<seq<Measured>>): (r: seq<Line>)
    requires Rectangular(mss, |samples|)
    ensures |r| == 12
  {
    [Header(["#methRatio"] + samples)] + HistogramRows(mss, |samples|, 11)
  }

  /** summary_stat.tsv as the measurements determine it. */
  function SummaryOf(samples: seq<string>, mss: seq<seq<Measured>>, stdev: seq<real> -> real, median: seq<real> -> real)
    : seq<Line>
    requires |samples| > 0 && |mss| > 0 && Rectangular(mss, |samples|)
  {
    ColumnsDefined(mss, |samples|);
    SummaryLines(samples, Columns(mss, |samples|), stdev, median)
  }

  /** The directory after the segment rows were collected: the file is
      written only when there is a row. */
  function SegmentFiles(files: map<FileName, seq<Line>>, region: Region, segs: seq<Segment>, samples: seq<string>)
    : map<FileName, seq<Line>>
    requires segs != [] ==> SegmentLines(segs, samples).Success?
  {
    if segs == [] || SegmentLines(segs, samples).value == [] then files
    else files[SegmentFile(region) := [SegmentHeader] + AsRows(SegmentLines(segs, samples).value)]
  }

  /** The directory after both statistics files were written for
      positions measured as `mss`. */
  function StatsFiles(files: map<FileName, seq<Line>>, region: Region, samples: seq<string>, mss: seq<seq<Measured>>,
                      stdev: seq<real> -> real, median: seq<real> -> real): map<FileName, seq<Line>>
    requires |samples| > 0 && |mss| > 0 && Rectangular(mss, |samples|)
  {
    files[Summary(region) := SummaryOf(samples, mss, stdev, median)]
         [Histogram(region) := HistogramOf(samples, mss)]
  }

  /** The directory after the statistics files and the segment file were
      written, for positions measured as `mss`. */
  function FinishFiles(files: map<FileName, seq<Line>>, region: Region, samples: seq<string>, mss: seq<seq<Measured>>,
                       segs: seq<Segment>, stdev: seq<real> -> real, median: seq<real> -> real): map<FileName, seq<Line>>
    requires |samples| > 0 && |mss| > 0 && Rectangular(mss, |samples|)
    requires segs != [] ==> SegmentLines(segs, samples).Success?
  {
    SegmentFiles(StatsFiles(files, region, samples, mss, stdev, median), region, segs, samples)
  }

  /** The directory after a completed region run over positions measured
      as `mss`: meth_cg headers, the positions, both statistics files and
      the segment file. */
  function RegionOutput(before: map<FileName, seq<Line>>, region: Region, data: seq<Position>, samples: seq<string>,
                        mss: seq<seq<Measured>>, segs: seq<Segment>, stdev: seq<real> -> real, median: seq<real> -> real)
    : map<FileName, seq<Line>>
    requires |samples| > 0 && |mss| == |data| > 0 && Rectangular(mss, |samples|) && AllSplit(samples)
    requires segs != [] ==> SegmentLines(segs, samples).Success?
  {
    FinishFiles(RegionFiles(MethHeaders(before, region, samples), region, data, samples, mss),
                region, samples, mss, segs, stdev, median)
  }

  // ---------------------------------------------------------------- lemmas

  /** Writing the headers gives each requested sample its meth_cg file
      holding the header alone and changes no other file. */
  lemma {:induction false} MethHeadersSpec(files: map<FileName, seq<Line>>, region: Region, samples: seq<string>)
    ensures var r := MethHeaders(files, region, samples);
      forall j :: 0 <= j < |samples| ==> MethCg(region, samples[j]) in r && r[MethCg(region, samples[j])] == [MethHeader]
    ensures var r := MethHeaders(files, region, samples);
      forall n :: !IsMethFile(n, region, samples) ==> Get(r, n) == Get(files, n)
  {
    if samples != [] {
      var init := samples[..|samples| - 1];
      MethHeadersSpec(files, region, init);
      forall n | !IsMethFile(n, region, samples) ensures Get(MethHeaders(files, region, samples), n) == Get(files, n) {
        assert !IsMethFile(n, region, init);
        assert n != MethCg(region, samples[|samples| - 1]) by {
          assert samples[|samples| - 1] in samples;
        }
      }
      forall j | 0 <= j < |samples| - 1 ensures init[j] == samples[j] { }
    }
  }

  /** One cell of the reference histogram. */
  lemma HistogramCell(samples: seq<string>, mss: seq<seq<Measured>>, b: nat, j: nat)
    requires Rectangular(mss, |samples|) && b <= 10 && j < |samples|
    ensures BinCell(HistogramOf(samples, mss)[b + 1], b, |samples|, j, Occurrences(BinsOf(mss, j), b))
  {
    var counts := BinCounts(mss, |samples|, b);
    HistogramRowAt(samples, mss, b);
    assert ([BinLabel(b)] + counts)[j + 1] == counts[j];
    assert counts[j] == Normalize(Int(Occurrences(BinsOf(mss, j), b)), "0");
  }

  /** Row b + 1 of the reference histogram is the row of bin b. */
  lemma HistogramRowAt(samples: seq<string>, mss: seq<seq<Measured>>, b: nat)
    requires Rectangular(mss, |samples|) && b <= 10
    ensures HistogramOf(samples, mss)[b + 1] == Row([BinLabel(b)] + BinCounts(mss, |samples|, b))
  {
    var rows := HistogramRows(mss, |samples|, 11);
    assert HistogramOf(samples, mss)[b + 1] == rows[b];
  }

  /** The reference histogram has, for each bin and sample, the number of
      positions whose ratio fell into that bin, '0' for none. */
  lemma HistogramOfHolds(samples: seq<string>, mss: seq<seq<Measured>>)
    requires Rectangular(mss, |samples|)
    ensures HistogramHolds(HistogramOf(samples, mss), samples, mss)
  {
    forall b: nat, j | b <= 10 && 0 <= j < |samples|
      ensures BinCell(HistogramOf(samples, mss)[b + 1], b, |samples|, j, Occurrences(BinsOf(mss, j), b))
    {
      HistogramCell(samples, mss, b, j);
    }
  }

  /** The segment file is written with its header and rows when there is a
      row, and no other file changes. */
  lemma SegmentFilesSpec(files: map<FileName, seq<Line>>, region: Region, segs: seq<Segment>, samples: seq<string>)
    requires segs != [] ==> SegmentLines(segs, samples).Success?
    ensures SegmentFileHolds(files, SegmentFiles(files, region, segs, samples), region, segs, samples)
    ensures forall n :: n != SegmentFile(region) ==> Get(SegmentFiles(files, region, segs, samples), n) == Get(files, n)
  {
  }

  /** Each sample's histogram column adds up to the number of positions. */
  lemma HistogramColumnTotal(data: seq<Position>, samples: seq<string>, j: nat)
    requires Measurements(data, samples).Success? && j < |samples|
    ensures BinTotal(BinsOf(Measurements(data, samples).value, j), 11) == |data|
  {
    var mss := Measurements(data, samples).value;
    var bins := BinsOf(mss, j);
    BinsOfSpec(mss, j);
    forall i | 0 <= i < |bins| ensures bins[i] <= 10 {
      MeasuredAt(data, samples, i, j);
    }
    HistogramTotal(bins);
  }

  /** Every data row of every meth_cg file has the fifteen columns of the
      header and no empty field. */
  lemma MethFileRows(data: seq<Position>, samples: seq<string>, j: nat)
    requires Measurements(data, samples).Success? && j < |samples|
    ensures var rows := MethRows(Measurements(data, samples).value, j);
      forall i :: 0 <= i < |rows| ==>
        rows[i].Row? && |rows[i].cells| == |MethHeader.names| && forall c :: c in rows[i].cells ==> !Falsy(c)
  {
    var mss: seq<seq<Measured>> := Measurements(data, samples).value;
    forall i | 0 <= i < |mss|
      ensures |mss[i][j].row| == 15 && forall c :: c in mss[i][j].row ==> !Falsy(c)
    {
      MeasuredAt(data, samples, i, j);
      MeasureSampleSpec(data[i], samples[j]);
      var (individual, sample) := SplitSample(samples[j]).value;
      var k := LookupCounts(data[i], individual, sample).value;
      MethRowSpec(data[i], k);
    }
  }

  lemma {:induction false} PositionFailurePersists(d: Position, samples: seq<string>, k: nat)
    requires k <= |samples| && MeasurePosition(d, samples[..k]).Failure?
    ensures MeasurePosition(d, samples) == MeasurePosition(d, samples[..k])
    decreases |samples| - k
  {
    if k < |samples| {
      assert samples[..k + 1][..k] == samples[..k];
      PositionFailurePersists(d, samples, k + 1);
    } else {
      assert samples[..k] == samples;
    }
  }

  lemma {:induction false} MeasurementsFailurePersists(data: seq<Position>, samples: seq<string>, k: nat)
    requires k <= |data| && Measurements(data[..k], samples).Failure?
    ensures Measurements(data, samples) == Measurements(data[..k], samples)
    decreases |data| - k
  {
    if k < |data| {
      assert data[..k + 1][..k] == data[..k];
      MeasurementsFailurePersists(data, samples, k + 1);
    } else {
      assert data[..k] == data;
    }
  }

  /** One more pair: its rows follow those of the pairs before it, in the
      file of its kind only. */
  lemma KindRowsStep(d: Position, pairs: seq<(string, string)>, p: nat, kind: Kind)
    requires d.diffmeth.Some? && p < |pairs|
    requires AllPairsSplit(pairs)
    ensures KindRows(d, pairs[..p + 1], kind) == KindRows(d, pairs[..p], kind) + PairRows(d, pairs[p], kind)
  {
    TakeStep(pairs, p);
  }

  /** One more pair sets the flag of its kind when its keys are present. */
  lemma HasKindStep(d: Position, pairs: seq<(string, string)>, p: nat, kind: Kind)
    requires d.diffmeth.Some? && p < |pairs|
    requires AllPairsSplit(pairs)
    ensures HasKind(d, pairs[..p + 1], kind) == (HasKind(d, pairs[..p], kind) || PairFlag(d, pairs[p], kind))
  {
    TakeStep(pairs, p);
  }

  /** Every file but the two named ones is as it was. */
  ghost predicate Unchanged(before: map<FileName, seq<Line>>, files: map<FileName, seq<Line>>, a: FileName, b: FileName)
  {
    forall n :: n != a && n != b ==> Get(files, n) == Get(before, n)
  }

  /** Proof helper with no counterpart in the client: `Unchanged` composes
      over two steps that touch the same two files. */
  lemma UnchangedTrans(a: map<FileName, seq<Line>>, b: map<FileName, seq<Line>>, c: map<FileName, seq<Line>>,
                       x: FileName, y: FileName)
    requires Unchanged(a, b, x, y) && Unchanged(b, c, x, y)
    ensures Unchanged(a, c, x, y)
  {
  }

  /** The lines of `name`, or none when it does not exist (what an
      append-mode open starts from). */
  function Content(files: map<FileName, seq<Line>>, name: FileName): seq<Line>
  {
    if name in files then files[name] else []
  }

  /** A position whose samples were all measured had every sample id split. */
  lemma PositionSamplesSplit(d: Position, samples: seq<string>)
    requires MeasurePosition(d, samples).Success?
    ensures AllSplit(samples)
  {
    MeasurePositionSpec(d, samples);
    forall s | s in samples ensures SplitSample(s).Some? {
      var j :| 0 <= j < |samples| && samples[j] == s;
      MeasureSampleSpec(d, samples[j]);
    }
  }

  /** The summary of the accumulator's lists is the summary of the
      measurements when each list holds that sample's bins. */
  lemma RatioColumnsAreColumns(ratios: map<string, seq<nat>>, samples: seq<string>, mss: seq<seq<Measured>>)
    requires Rectangular(mss, |samples|)
    requires forall j :: 0 <= j < |samples| ==> samples[j] in ratios && ratios[samples[j]] == BinsOf(mss, j)
    ensures RatioColumns(ratios, samples) == Columns(mss, |samples|)
  {
  }

  /** A count column that holds, for each sample, the occurrences of bin
      `b` among its bins gives the reference cells of that bin. */
  lemma CountCellsMatch(column: map<string, nat>, samples: seq<string>, mss: seq<seq<Measured>>, b: nat)
    requires Rectangular(mss, |samples|)
    requires forall s :: s in samples ==> s in column
    requires forall j :: 0 <= j < |samples| ==> column[samples[j]] == Occurrences(BinsOf(mss, j), b)
    ensures CountCells(column, samples) == BinCounts(mss, |samples|, b)
  {
  }

  /** Consistent counts have a count of every sample in every bin. */
  lemma CountKeys(samples: seq<string>, counts: map<nat, map<string, nat>>, ratios: map<string, seq<nat>>)
    requires Consistent(samples, counts, ratios)
    ensures forall b: nat :: b <= 10 ==> b in counts && forall s :: s in samples ==> s in counts[b]
    ensures forall s :: s in samples ==> s in ratios
  {
    forall b: nat, s | b <= 10 && s in samples ensures b in counts && s in counts[b] {
      ConsistentCount(samples, counts, ratios, b, s);
    }
  }

  /** Counts consistent with lists that hold the measured bins count, for
      each bin and sample, the occurrences of the bin among its bins. */
  lemma CountsOfBins(samples: seq<string>, counts: map<nat, map<string, nat>>, ratios: map<string, seq<nat>>,
                     mss: seq<seq<Measured>>)
    requires Consistent(samples, counts, ratios) && Rectangular(mss, |samples|)
    requires forall j :: 0 <= j < |samples| ==> ratios[samples[j]] == BinsOf(mss, j)
    ensures forall b: nat :: b <= 10 ==> b in counts && forall s :: s in samples ==> s in counts[b]
    ensures forall b: nat, j :: b <= 10 && 0 <= j < |samples| ==> counts[b][samples[j]] == Occurrences(BinsOf(mss, j), b)
  {
    forall b: nat, s | b <= 10 && s in samples ensures b in counts && s in counts[b] {
      ConsistentCount(samples, counts, ratios, b, s);
    }
    forall b: nat, j | b <= 10 && 0 <= j < |samples| ensures counts[b][samples[j]] == Occurrences(BinsOf(mss, j), b) {
      ConsistentCount(samples, counts, ratios, b, samples[j]);
    }
  }

  /** The histogram written from counts of the measured bins is the
      reference histogram of the measurements. */
  lemma HistogramFromCounts(samples: seq<string>, counts: map<nat, map<string, nat>>, mss: seq<seq<Measured>>)
    requires Rectangular(mss, |samples|)
    requires forall b: nat :: b <= 10 ==> b in counts && forall s :: s in samples ==> s in counts[b]
    requires forall b: nat, j :: b <= 10 && 0 <= j < |samples| ==> counts[b][samples[j]] == Occurrences(BinsOf(mss, j), b)
    ensures HistogramLines(samples, counts, true) == HistogramOf(samples, mss)
  {
    var h := HistogramLines(samples, counts, true);
    var g := HistogramOf(samples, mss);
    forall i | 0 <= i < 12 ensures h[i] == g[i] {
      if i > 0 {
        CountCellsMatch(counts[i - 1], samples, mss, i - 1);
      }
    }
  }

  /** The summary written from lists that hold the measured bins is the
      summary of the measurements. */
  lemma SummaryOfLists(ratios: map<string, seq<nat>>, samples: seq<string>, mss: seq<seq<Measured>>,
                       stdev: seq<real> -> real, median: seq<real> -> real)
    requires |samples| > 0 && |mss| > 0 && Rectangular(mss, |samples|)
    requires forall j :: 0 <= j < |samples| ==> samples[j] in ratios && ratios[samples[j]] == BinsOf(mss, j)
    ensures StatsDefined(RatioColumns(ratios, samples)) && StatsDefined(Columns(mss, |samples|))
    ensures SummaryLines(samples, RatioColumns(ratios, samples), stdev, median) == SummaryOf(samples, mss, stdev, median)
  {
    RatioColumnsAreColumns(ratios, samples, mss);
    ColumnsDefined(mss, |samples|);
  }

  /** The histogram written from counts consistent with lists that hold
      the measured bins is the histogram of the measurements. */
  lemma HistogramOfLists(samples: seq<string>, counts: map<nat, map<string, nat>>, ratios: map<string, seq<nat>>,
                         mss: seq<seq<Measured>>)
    requires Consistent(samples, counts, ratios) && |samples| > 0 && |mss| > 0 && Rectangular(mss, |samples|)
    requires forall j :: 0 <= j < |samples| ==> ratios[samples[j]] == BinsOf(mss, j)
    ensures forall b: nat :: b <= 10 ==> b in counts && forall s :: s in samples ==> s in counts[b]
    ensures samples[|samples| - 1] in ratios && |ratios[samples[|samples| - 1]]| > 0
    ensures HistogramLines(samples, counts, true) == HistogramOf(samples, mss)
  {
    CountsOfBins(samples, counts, ratios, mss);
    HistogramFromCounts(samples, counts, mss);
    assert ratios[samples[|samples| - 1]] == BinsOf(mss, |samples| - 1);
  }

  /** One more measured sample extends the measured prefix of a position. */
  lemma MeasurePositionStep(d: Position, samples: seq<string>, j: nat, ms: seq<Measured>, m: Measured)
    requires j < |samples| && MeasurePosition(d, samples[..j]) == Success(ms)
    requires MeasureSample(d, samples[j]) == Success(m)
    ensures MeasurePosition(d, samples[..j + 1]) == Success(ms + [m])
  {
    TakeStep(samples, j);
  }

  /** One more measured position extends the measured prefix of the data. */
  lemma MeasurementsStep(data: seq<Position>, samples: seq<string>, i: nat, mss: seq<seq<Measured>>, ms: seq<Measured>)
    requires i < |data| && Measurements(data[..i], samples) == Success(mss)
    requires MeasurePosition(data[i], samples) == Success(ms)
    ensures Measurements(data[..i + 1], samples) == Success(mss + [ms])
  {
    TakeStep(data, i);
  }

  /** One more position adds its row to a meth_cg file and its bin to the
      sample's list. */
  lemma RowsStep(mss: seq<seq<Measured>>, ms: seq<Measured>, j: nat)
    requires forall i :: 0 <= i < |mss| ==> j < |mss[i]|
    requires j < |ms|
    ensures MethRows(mss + [ms], j) == MethRows(mss, j) + [Row(ms[j].row)]
    ensures BinsOf(mss + [ms], j) == BinsOf(mss, j) + [ms[j].bin]
  {
    AppendPrefix(mss, ms);
  }

  /** `ms` holds the measurements of the first |ms| requested samples. */
  ghost predicate SamplesMeasured(d: Position, samples: seq<string>, ms: seq<Measured>)
  {
    |ms| <= |samples| && forall k :: 0 <= k < |ms| ==> MeasureSample(d, samples[k]) == Success(ms[k])
  }

  lemma SamplesMeasuredStep(d: Position, samples: seq<string>, ms: seq<Measured>, m: Measured)
    requires SamplesMeasured(d, samples, ms) && |ms| < |samples|
    requires MeasureSample(d, samples[|ms|]) == Success(m)
    ensures SamplesMeasured(d, samples, ms + [m])
  {
    forall k | 0 <= k < |ms| + 1 ensures MeasureSample(d, samples[k]) == Success((ms + [m])[k]) {
      if k < |ms| {
        assert (ms + [m])[k] == ms[k];
      }
    }
  }

  /** When every sample was measured, so was the position. */
  lemma {:induction false} PositionMeasured(d: Position, samples: seq<string>, ms: seq<Measured>)
    requires SamplesMeasured(d, samples, ms) && |ms| == |samples|
    ensures MeasurePosition(d, samples) == Success(ms)
  {
    if samples != [] {
      var n := |samples| - 1;
      var init, done := samples[..n], ms[..n];
      assert SamplesMeasured(d, init, done) by {
        forall k | 0 <= k < n ensures MeasureSample(d, init[k]) == Success(done[k]) {
          assert init[k] == samples[k] && done[k] == ms[k];
        }
      }
      PositionMeasured(d, init, done);
      assert MeasureSample(d, samples[n]) == Success(ms[n]);
      InitLast(ms);
    }
  }

  /** The first sample that fails gives the position its fault. */
  lemma PositionFault(d: Position, samples: seq<string>, ms: seq<Measured>, f: Fault)
    requires SamplesMeasured(d, samples, ms) && |ms| < |samples|
    requires MeasureSample(d, samples[|ms|]) == Failure(f)
    ensures MeasurePosition(d, samples) == Failure(f)
  {
    var n := |ms|;
    PositionMeasured(d, samples[..n], ms);
    TakeStep(samples, n);
    PositionFailurePersists(d, samples, n + 1);
  }

  /** `mss` holds the measurements of the first |mss| positions. */
  ghost predicate PositionsMeasured(data: seq<Position>, samples: seq<string>, mss: seq<seq<Measured>>)
  {
    |mss| <= |data| && forall i :: 0 <= i < |mss| ==> MeasurePosition(data[i], samples) == Success(mss[i])
  }

  lemma PositionsMeasuredStep(data: seq<Position>, samples: seq<string>, mss: seq<seq<Measured>>, ms: seq<Measured>)
    requires PositionsMeasured(data, samples, mss) && |mss| < |data|
    requires MeasurePosition(data[|mss|], samples) == Success(ms)
    ensures PositionsMeasured(data, samples, mss + [ms])
  {
    forall i | 0 <= i < |mss| + 1 ensures MeasurePosition(data[i], samples) == Success((mss + [ms])[i]) {
      if i < |mss| {
        assert (mss + [ms])[i] == mss[i];
      }
    }
  }

  /** When every position was measured, so was the region. */
  lemma {:induction false} RegionMeasured(data: seq<Position>, samples: seq<string>, mss: seq<seq<Measured>>)
    requires PositionsMeasured(data, samples, mss) && |mss| == |data|
    ensures Measurements(data, samples) == Success(mss)
  {
    if data != [] {
      var n := |data| - 1;
      RegionMeasured(data[..n], samples, mss[..n]);
      InitLast(mss);
    }
  }

  /** The first position that fails gives the region its fault. */
  lemma RegionFault(data: seq<Position>, samples: seq<string>, mss: seq<seq<Measured>>, f: Fault)
    requires PositionsMeasured(data, samples, mss) && |mss| < |data|
    requires MeasurePosition(data[|mss|], samples) == Failure(f)
    ensures Measurements(data, samples) == Failure(f)
  {
    var n := |mss|;
    RegionMeasured(data[..n], samples, mss);
    TakeStep(data, n);
    MeasurementsFailurePersists(data, samples, n + 1);
  }

  /** The files after the first |ms| requested samples of a position each
      appended their row to their meth_cg file. */
  function AppendRows(files: map<FileName, seq<Line>>, region: Region, samples: seq<string>, ms: seq<Measured>): map<FileName, seq<Line>>
    requires |ms| <= |samples|
  {
    if ms == [] then files
    else
      var before := AppendRows(files, region, samples, ms[..|ms| - 1]);
      var name := MethCg(region, samples[|ms| - 1]);
      before[name := Content(before, name) + [Row(ms[|ms| - 1].row)]]
  }

  /** The accumulator's lists after the first |ms| requested samples of a
      position each appended their bin. */
  function AppendBins(ratios: map<string, seq<nat>>, samples: seq<string>, ms: seq<Measured>): map<string, seq<nat>>
    requires |ms| <= |samples|
  {
    if ms == [] then ratios
    else
      var before := AppendBins(ratios, samples, ms[..|ms| - 1]);
      var id := samples[|ms| - 1];
      before[id := (if id in before then before[id] else []) + [ms[|ms| - 1].bin]]
  }

  /** One more sample appends its row to its own meth_cg file. */
  lemma AppendRowsStep(files: map<FileName, seq<Line>>, region: Region, samples: seq<string>, ms: seq<Measured>,
                       m: Measured)
    requires |ms| < |samples|
    ensures var before := AppendRows(files, region, samples, ms);
      var name := MethCg(region, samples[|ms|]);
      AppendRows(files, region, samples, ms + [m]) == before[name := Content(before, name) + [Row(m.row)]]
  {
    AppendPrefix(ms, m);
  }

  /** One more sample appends its bin to its own list. */
  lemma AppendBinsStep(ratios: map<string, seq<nat>>, samples: seq<string>, ms: seq<Measured>, m: Measured)
    requires |ms| < |samples|
    ensures var before := AppendBins(ratios, samples, ms);
      var id := samples[|ms|];
      AppendBins(ratios, samples, ms + [m]) == before[id := (if id in before then before[id] else []) + [m.bin]]
  {
    AppendPrefix(ms, m);
  }

  /** With distinct samples, each of the first |ms| meth_cg files got
      exactly its own row, and no other file changed. */
  lemma {:induction false} AppendRowsSpec(files: map<FileName, seq<Line>>, region: Region, samples: seq<string>, ms: seq<Measured>)
    requires Distinct(samples) && |ms| <= |samples|
    ensures var after := AppendRows(files, region, samples, ms);
      forall k :: 0 <= k < |ms| ==>
        Get(after, MethCg(region, samples[k])) == Some(Content(files, MethCg(region, samples[k])) + [Row(ms[k].row)])
    ensures var after := AppendRows(files, region, samples, ms);
      forall n :: (forall k :: 0 <= k < |ms| ==> n != MethCg(region, samples[k])) ==> Get(after, n) == Get(files, n)
  {
    if ms != [] {
      var init := ms[..|ms| - 1];
      AppendRowsSpec(files, region, samples, init);
      var last := |ms| - 1;
      forall k | 0 <= k < |ms|
        ensures Get(AppendRows(files, region, samples, ms), MethCg(region, samples[k])) ==
          Some(Content(files, MethCg(region, samples[k])) + [Row(ms[k].row)])
      {
        if k < last {
          assert samples[k] != samples[last];
          assert init[k] == ms[k];
        } else {
          var name := MethCg(region, samples[last]);
          forall i | 0 <= i < |init| ensures name != MethCg(region, samples[i]) {
            assert samples[i] != samples[last];
          }
          assert Get(AppendRows(files, region, samples, init), name) == Get(files, name);
        }
      }
      forall n | forall k :: 0 <= k < |ms| ==> n != MethCg(region, samples[k])
        ensures Get(AppendRows(files, region, samples, ms), n) == Get(files, n)
      {
        assert n != MethCg(region, samples[last]);
      }
    }
  }

  /** With distinct samples, each of the first |ms| lists got exactly its
      own bin, and no other list changed. */
  lemma {:induction false} AppendBinsSpec(ratios: map<string, seq<nat>>, samples: seq<string>, ms: seq<Measured>)
    requires Distinct(samples) && |ms| <= |samples|
    requires forall k :: 0 <= k < |ms| ==> samples[k] in ratios
    ensures var after := AppendBins(ratios, samples, ms);
      forall k :: 0 <= k < |ms| ==> samples[k] in after && after[samples[k]] == ratios[samples[k]] + [ms[k].bin]
    ensures var after := AppendBins(ratios, samples, ms);
      forall s :: s in ratios && (forall k :: 0 <= k < |ms| ==> s != samples[k]) ==> s in after && after[s] == ratios[s]
  {
    if ms != [] {
      var init := ms[..|ms| - 1];
      AppendBinsSpec(ratios, samples, init);
      var last := |ms| - 1;
      forall k | 0 <= k < |ms|
        ensures samples[k] in AppendBins(ratios, samples, ms) &&
          AppendBins(ratios, samples, ms)[samples[k]] == ratios[samples[k]] + [ms[k].bin]
      {
        if k < last {
          assert samples[k] != samples[last];
          assert init[k] == ms[k];
        }
      }
    }
  }

  /** A diff file set to `f`: written when present, removed when not. */
  function SetFile(files: map<FileName, seq<Line>>, name: FileName, f: DiffFile): (r: map<FileName, seq<Line>>)
    ensures Get(r, name) == f
    ensures forall n :: n != name ==> Get(r, n) == Get(files, n)
  {
    if f.Some? then files[name := f.value] else files - {name}
  }

  /** The files after a diff-bearing position routed its pairs: both diff
      files take their step. */
  function RouteFiles(files: map<FileName, seq<Line>>, region: Region, d: Position, samples: seq<string>): map<FileName, seq<Line>>
    requires DiffBearing(d, samples) && AllSplit(samples)
  {
    var intra := SetFile(files, Intraindividual(region), PositionStep(Get(files, Intraindividual(region)), d, samples, Intra));
    SetFile(intra, Interindividual(region), PositionStep(Get(files, Interindividual(region)), d, samples, Inter))
  }

  lemma RouteFilesSpec(files: map<FileName, seq<Line>>, region: Region, d: Position, samples: seq<string>)
    requires DiffBearing(d, samples) && AllSplit(samples)
    ensures forall kind: Kind ::
      Get(RouteFiles(files, region, d, samples), DiffName(region, kind)) ==
      PositionStep(Get(files, DiffName(region, kind)), d, samples, kind)
    ensures Unchanged(files, RouteFiles(files, region, d, samples), Intraindividual(region), Interindividual(region))
  {
  }

  /** Routing is the only way to get from `before` to `after` when each
      diff file took its step and nothing else changed. */
  lemma RouteFilesOnly(before: map<FileName, seq<Line>>, after: map<FileName, seq<Line>>, region: Region,
                       d: Position, samples: seq<string>)
    requires DiffBearing(d, samples) && AllSplit(samples)
    requires Get(after, Intraindividual(region)) == PositionStep(Get(before, Intraindividual(region)), d, samples, Intra)
    requires Get(after, Interindividual(region)) == PositionStep(Get(before, Interindividual(region)), d, samples, Inter)
    requires Unchanged(before, after, Intraindividual(region), Interindividual(region))
    ensures after == RouteFiles(before, region, d, samples)
  {
    var target := RouteFiles(before, region, d, samples);
    RouteFilesSpec(before, region, d, samples);
    assert DiffName(region, Intra) == Intraindividual(region) && DiffName(region, Inter) == Interindividual(region);
    SameFiles(after, target);
  }

  /** Two file trees with the same files are the same tree. */
  lemma SameFiles(a: map<FileName, seq<Line>>, b: map<FileName, seq<Line>>)
    requires forall n :: Get(a, n) == Get(b, n)
    ensures a == b
  {
    forall n ensures (n in a <==> n in b) && (n in a ==> a[n] == b[n]) {
      assert Get(a, n) == Get(b, n);
    }
  }

  /** The files after one position: each sample's row, then, when the
      position bears diff data, its pairs. */
  function PositionFiles(files: map<FileName, seq<Line>>, region: Region, d: Position, samples: seq<string>,
                         ms: seq<Measured>): map<FileName, seq<Line>>
    requires |ms| == |samples| && AllSplit(samples)
  {
    var measured := AppendRows(files, region, samples, ms);
    if DiffBearing(d, samples) then RouteFiles(measured, region, d, samples) else measured
  }

  /** The files one position may change: its samples' meth_cg files and
      the two diff files of the region. */
  predicate PositionTouches(n: FileName, region: Region, samples: seq<string>)
  {
    IsMethFile(n, region, samples) || n == Intraindividual(region) || n == Interindividual(region)
  }

  /** The rows of one position leave every file but the samples' meth_cg
      files as it was. */
  lemma AppendRowsKeep(files: map<FileName, seq<Line>>, region: Region, samples: seq<string>, ms: seq<Measured>)
    requires Distinct(samples) && |ms| == |samples|
    ensures forall n :: !IsMethFile(n, region, samples) ==> Get(AppendRows(files, region, samples, ms), n) == Get(files, n)
  {
    AppendRowsSpec(files, region, samples, ms);
    forall n | !IsMethFile(n, region, samples) ensures Get(AppendRows(files, region, samples, ms), n) == Get(files, n) {
      forall k | 0 <= k < |samples| ensures n != MethCg(region, samples[k]) {
        assert samples[k] in samples;
      }
    }
  }

  /** One position appends each sample's row to its own meth_cg file. */
  lemma PositionMethRows(files: map<FileName, seq<Line>>, region: Region, d: Position, samples: seq<string>,
                          ms: seq<Measured>)
    requires Distinct(samples) && |ms| == |samples| && AllSplit(samples)
    ensures forall j :: 0 <= j < |samples| ==>
      Get(PositionFiles(files, region, d, samples, ms), MethCg(region, samples[j])) == Some(Content(files, MethCg(region, samples[j])) + [Row(ms[j].row)])
  {
    AppendRowsSpec(files, region, samples, ms);
    if DiffBearing(d, samples) {
      var measured := AppendRows(files, region, samples, ms);
      RouteFilesSpec(measured, region, d, samples);
    }
  }

  /** One position takes the diff step on both diff files when it bears
      diff data, and leaves them as they were otherwise. */
  lemma PositionDiffStep(files: map<FileName, seq<Line>>, region: Region, d: Position, samples: seq<string>,
                          ms: seq<Measured>)
    requires Distinct(samples) && |ms| == |samples| && AllSplit(samples)
    ensures forall kind: Kind ::
      Get(PositionFiles(files, region, d, samples, ms), DiffName(region, kind)) ==
        if DiffBearing(d, samples) then PositionStep(Get(files, DiffName(region, kind)), d, samples, kind)
        else Get(files, DiffName(region, kind))
  {
    var measured := AppendRows(files, region, samples, ms);
    AppendRowsKeep(files, region, samples, ms);
    assert !IsMethFile(Intraindividual(region), region, samples) && !IsMethFile(Interindividual(region), region, samples);
    if DiffBearing(d, samples) {
      RouteFilesSpec(measured, region, d, samples);
    }
  }

  /** One position changes no file but its samples' meth_cg files and the
      region's diff files. */
  lemma PositionKeeps(files: map<FileName, seq<Line>>, region: Region, d: Position, samples: seq<string>,
                          ms: seq<Measured>)
    requires Distinct(samples) && |ms| == |samples| && AllSplit(samples)
    ensures forall n :: !PositionTouches(n, region, samples) ==> Get(PositionFiles(files, region, d, samples, ms), n) == Get(files, n)
  {
    var measured := AppendRows(files, region, samples, ms);
    AppendRowsKeep(files, region, samples, ms);
    if DiffBearing(d, samples) {
      RouteFilesSpec(measured, region, d, samples);
    }
  }

  /** The files after the positions of `data`, measured as `mss`. */
  function RegionFiles(files: map<FileName, seq<Line>>, region: Region, data: seq<Position>, samples: seq<string>,
                       mss: seq<seq<Measured>>): map<FileName, seq<Line>>
    requires |mss| == |data| && Rectangular(mss, |samples|) && (data != [] ==> AllSplit(samples))
  {
    if data == [] then files
    else
      var n := |data| - 1;
      PositionFiles(RegionFiles(files, region, data[..n], samples, mss[..n]), region, data[n], samples, mss[n])
  }

  /** One more position extends the files of the positions before it. */
  lemma RegionStep(files: map<FileName, seq<Line>>, region: Region, data: seq<Position>, samples: seq<string>,
                   mss: seq<seq<Measured>>, ms: seq<Measured>)
    requires |mss| < |data| && Rectangular(mss, |samples|) && |ms| == |samples| && AllSplit(samples)
    ensures Rectangular(mss + [ms], |samples|)
    ensures RegionFiles(files, region, data[..|mss| + 1], samples, mss + [ms]) ==
      PositionFiles(RegionFiles(files, region, data[..|mss|], samples, mss), region, data[|mss|], samples, ms)
  {
    var n := |mss|;
    TakeStep(data, n);
    assert (mss + [ms])[..n] == mss;
  }

  /** Each meth_cg file of a region with existing files ends with the rows
      of its sample at every position, in position order. */
  lemma {:induction false} RegionMethFiles(files: map<FileName, seq<Line>>, region: Region, data: seq<Position>,
                                           samples: seq<string>, mss: seq<seq<Measured>>)
    requires Distinct(samples) && |mss| == |data| && Rectangular(mss, |samples|) && (data != [] ==> AllSplit(samples))
    requires forall j :: 0 <= j < |samples| ==> MethCg(region, samples[j]) in files
    ensures var after := RegionFiles(files, region, data, samples, mss);
      forall j :: 0 <= j < |samples| ==>
        Get(after, MethCg(region, samples[j])) == Some(files[MethCg(region, samples[j])] + MethRows(mss, j))
  {
    if data != [] {
      var n := |data| - 1;
      var before := RegionFiles(files, region, data[..n], samples, mss[..n]);
      RegionMethFiles(files, region, data[..n], samples, mss[..n]);
      PositionMethRows(before, region, data[n], samples, mss[n]);
      InitLast(mss);
      forall j | 0 <= j < |samples|
        ensures Get(RegionFiles(files, region, data, samples, mss), MethCg(region, samples[j])) ==
          Some(files[MethCg(region, samples[j])] + MethRows(mss, j))
      {
        var name := MethCg(region, samples[j]);
        assert Content(before, name) == files[name] + MethRows(mss[..n], j);
        RowsStep(mss[..n], mss[n], j);
        AppendAssoc(files[name], MethRows(mss[..n], j), [Row(mss[n][j].row)]);
      }
    } else {
      forall j | 0 <= j < |samples|
        ensures files[MethCg(region, samples[j])] + MethRows(mss, j) == files[MethCg(region, samples[j])]
      {
        assert MethRows(mss, j) == [];
      }
    }
  }

  /** Each diff file of a region is what the diff-bearing positions made
      of it. */
  lemma {:induction false} RegionDiffFiles(files: map<FileName, seq<Line>>, region: Region, data: seq<Position>,
                                           samples: seq<string>, mss: seq<seq<Measured>>, kind: Kind)
    requires Distinct(samples) && |mss| == |data| && Rectangular(mss, |samples|) && (data != [] ==> AllSplit(samples))
    ensures Get(RegionFiles(files, region, data, samples, mss), DiffName(region, kind)) ==
      DiffAfter(Get(files, DiffName(region, kind)), data, samples, kind)
  {
    if data != [] {
      var n := |data| - 1;
      RegionDiffFiles(files, region, data[..n], samples, mss[..n], kind);
      PositionDiffStep(RegionFiles(files, region, data[..n], samples, mss[..n]), region, data[n], samples, mss[n]);
    }
  }

  /** A region's positions change no file but its meth_cg and diff files. */
  lemma {:induction false} RegionOtherFiles(files: map<FileName, seq<Line>>, region: Region, data: seq<Position>,
                                            samples: seq<string>, mss: seq<seq<Measured>>, n: FileName)
    requires Distinct(samples) && |mss| == |data| && Rectangular(mss, |samples|) && (data != [] ==> AllSplit(samples))
    requires !PositionTouches(n, region, samples)
    ensures Get(RegionFiles(files, region, data, samples, mss), n) == Get(files, n)
  {
    if data != [] {
      var k := |data| - 1;
      RegionOtherFiles(files, region, data[..k], samples, mss[..k], n);
      PositionKeeps(RegionFiles(files, region, data[..k], samples, mss[..k]), region, data[k], samples, mss[k]);
    }
  }

  /** The accumulator's lists after the positions measured as `mss`. */
  function RegionBins(ratios: map<string, seq<nat>>, samples: seq<string>, mss: seq<seq<Measured>>): map<string, seq<nat>>
    requires Rectangular(mss, |samples|)
  {
    if mss == [] then ratios
    else AppendBins(RegionBins(ratios, samples, mss[..|mss| - 1]), samples, mss[|mss| - 1])
  }

  /** Each sample's list gets its bin at every position, in position order. */
  lemma {:induction false} RegionBinsSpec(ratios: map<string, seq<nat>>, samples: seq<string>, mss: seq<seq<Measured>>)
    requires Distinct(samples) && Rectangular(mss, |samples|)
    requires forall j :: 0 <= j < |samples| ==> samples[j] in ratios
    ensures forall j :: 0 <= j < |samples| ==>
      samples[j] in RegionBins(ratios, samples, mss) &&
      RegionBins(ratios, samples, mss)[samples[j]] == ratios[samples[j]] + BinsOf(mss, j)
  {
    if mss != [] {
      var n := |mss| - 1;
      var before := RegionBins(ratios, samples, mss[..n]);
      RegionBinsSpec(ratios, samples, mss[..n]);
      AppendBinsSpec(before, samples, mss[n]);
      forall j | 0 <= j < |samples|
        ensures RegionBins(ratios, samples, mss)[samples[j]] == ratios[samples[j]] + BinsOf(mss, j)
      {
        assert BinsOf(mss, j) == BinsOf(mss[..n], j) + [mss[n][j].bin];
        AppendAssoc(ratios[samples[j]], BinsOf(mss[..n], j), [mss[n][j].bin]);
      }
    }
  }

  /** One more position extends the lists of the positions before it. */
  lemma BinsStep(ratios: map<string, seq<nat>>, samples: seq<string>, mss: seq<seq<Measured>>, ms: seq<Measured>)
    requires Rectangular(mss, |samples|) && |ms| == |samples|
    ensures Rectangular(mss + [ms], |samples|)
    ensures RegionBins(ratios, samples, mss + [ms]) == AppendBins(RegionBins(ratios, samples, mss), samples, ms)
  {
    AppendPrefix(mss, ms);
  }

  /** Writing the meth_cg headers and then running the positions leaves
      each meth_cg file as its header and its rows, each diff file as the
      diff-bearing positions made it, and every other file as it was. */
  lemma RegionFilesHold(before: map<FileName, seq<Line>>, region: Region, data: seq<Position>, samples: seq<string>,
                        mss: seq<seq<Measured>>)
    requires Distinct(samples) && |mss| == |data| && Rectangular(mss, |samples|) && (data != [] ==> AllSplit(samples))
    ensures var after := RegionFiles(MethHeaders(before, region, samples), region, data, samples, mss);
      MethFilesHold(after, region, samples, mss) && DiffFilesHold(before, after, region, data, samples) &&
      forall n :: !PositionTouches(n, region, samples) ==> Get(after, n) == Get(before, n)
  {
    var headed := MethHeaders(before, region, samples);
    var after := RegionFiles(headed, region, data, samples, mss);
    MethHeadersSpec(before, region, samples);
    RegionMethFiles(headed, region, data, samples, mss);
    RegionDiffFiles(headed, region, data, samples, mss, Intra);
    RegionDiffFiles(headed, region, data, samples, mss, Inter);
    assert !IsMethFile(Intraindividual(region), region, samples);
    assert !IsMethFile(Interindividual(region), region, samples);
    forall n | !PositionTouches(n, region, samples) ensures Get(after, n) == Get(before, n) {
      RegionOtherFiles(headed, region, data, samples, mss, n);
    }
  }

  /** The fault that ends a region run with position data, if any: the
      first measurement fault, then no requested sample when the summary
      reads the last one, then the first fault while collecting segment
      rows. */
  function RunFault(data: seq<Position>, samples: seq<string>, segs: seq<Segment>): Option<Fault>
  {
    if MeasureFault(data, samples).Some? then MeasureFault(data, samples) else FinishFault(samples, segs)
  }

  /** The first fault of the data x samples loop, if any. */
  function MeasureFault(data: seq<Position>, samples: seq<string>): Option<Fault>
  {
    if Measurements(data, samples).Failure? then Some(Measurements(data, samples).error) else None
  }

  /** The fault after the positions, if any: no requested sample when the
      summary reads the last one, then the first fault while collecting
      segment rows. */
  function FinishFault(samples: seq<string>, segs: seq<Segment>): Option<Fault>
  {
    if samples == [] then Some(NoSamples)
    else if segs != [] && SegmentLines(segs, samples).Failure? then Some(SegmentLines(segs, samples).error)
    else None
  }

  /** How a region run ends: nothing to do without position records,
      otherwise its first fault or completion. */
  function RunOutcome(data: seq<Position>, samples: seq<string>, segs: seq<Segment>): Outcome
  {
    if data == [] then NoData
    else
      match RunFault(data, samples, segs)
      case None => Done
      case Some(f) => Aborted(f)
  }

  /** The summary reads lists that are all as long as the positions. */
  lemma ColumnsDefined(mss: seq<seq<Measured>>, n: nat)
    requires |mss| > 0 && n > 0 && Rectangular(mss, n)
    ensures StatsDefined(Columns(mss, n))
  {
  }

  /** Everything a completed region run promises about the output
      directory, relative to the directory `before` it, for positions
      measured as `mss`. */
  ghost predicate RegionWritten(before: map<FileName, seq<Line>>, files: map<FileName, seq<Line>>, region: Region,
                                data: seq<Position>, samples: seq<string>, mss: seq<seq<Measured>>, segs: seq<Segment>,
                                stdev: seq<real> -> real, median: seq<real> -> real)
    requires |samples| > 0 && |mss| == |data| > 0 && Rectangular(mss, |samples|)
    requires segs != [] ==> SegmentLines(segs, samples).Success?
  {
    && MethFilesHold(files, region, samples, mss)
    && DiffFilesHold(before, files, region, data, samples)
    && Get(files, Summary(region)) == Some(SummaryOf(samples, mss, stdev, median))
    && Histogram(region) in files && HistogramHolds(files[Histogram(region)], samples, mss)
    && SegmentFileHolds(before, files, region, segs, samples)
    && OthersUnchanged(before, files, region, samples)
  }

  /** Writing the statistics files changes no other file. */
  lemma StatsFilesKeep(files: map<FileName, seq<Line>>, region: Region, samples: seq<string>, mss: seq<seq<Measured>>,
                       stdev: seq<real> -> real, median: seq<real> -> real)
    requires |samples| > 0 && |mss| > 0 && Rectangular(mss, |samples|)
    ensures forall n :: n != Summary(region) && n != Histogram(region) ==>
      Get(StatsFiles(files, region, samples, mss, stdev, median), n) == Get(files, n)
  {
  }

  /** Writing the statistics and segment files changes no other file. */
  lemma FinishFilesKeep(files: map<FileName, seq<Line>>, region: Region, samples: seq<string>, mss: seq<seq<Measured>>,
                        segs: seq<Segment>, stdev: seq<real> -> real, median: seq<real> -> real)
    requires |samples| > 0 && |mss| > 0 && Rectangular(mss, |samples|)
    requires segs != [] ==> SegmentLines(segs, samples).Success?
    ensures var r := FinishFiles(files, region, samples, mss, segs, stdev, median);
      forall n :: n != Summary(region) && n != Histogram(region) && n != SegmentFile(region) ==> Get(r, n) == Get(files, n)
  {
    StatsFilesKeep(files, region, samples, mss, stdev, median);
    SegmentFilesSpec(StatsFiles(files, region, samples, mss, stdev, median), region, segs, samples);
  }

  /** The meth_cg files hold in any directory that agrees on them. */
  lemma MethFilesAgree(a: map<FileName, seq<Line>>, b: map<FileName, seq<Line>>, region: Region, samples: seq<string>,
                       mss: seq<seq<Measured>>)
    requires Rectangular(mss, |samples|) && MethFilesHold(a, region, samples, mss)
    requires forall n: FileName :: n.MethCg? ==> Get(b, n) == Get(a, n)
    ensures MethFilesHold(b, region, samples, mss)
  {
    forall j | 0 <= j < |samples|
      ensures MethCg(region, samples[j]) in b && b[MethCg(region, samples[j])] == a[MethCg(region, samples[j])]
    {
      assert Get(b, MethCg(region, samples[j])) == Get(a, MethCg(region, samples[j]));
    }
  }

  /** The meth_cg files survive the statistics and segment files. */
  lemma FinishMethFiles(before: map<FileName, seq<Line>>, files: map<FileName, seq<Line>>, region: Region,
                     data: seq<Position>, samples: seq<string>, mss: seq<seq<Measured>>, segs: seq<Segment>,
                     stdev: seq<real> -> real, median: seq<real> -> real)
    requires |samples| > 0 && |mss| > 0 && Rectangular(mss, |samples|)
    requires segs != [] ==> SegmentLines(segs, samples).Success?
    requires MethFilesHold(files, region, samples, mss)
    ensures MethFilesHold(FinishFiles(files, region, samples, mss, segs, stdev, median), region, samples, mss)
  {
    FinishFilesKeep(files, region, samples, mss, segs, stdev, median);
    MethFilesAgree(files, FinishFiles(files, region, samples, mss, segs, stdev, median), region, samples, mss);
  }

  /** The diff files survive the statistics and segment files. */
  lemma FinishDiffFiles(before: map<FileName, seq<Line>>, files: map<FileName, seq<Line>>, region: Region,
                     data: seq<Position>, samples: seq<string>, mss: seq<seq<Measured>>, segs: seq<Segment>,
                     stdev: seq<real> -> real, median: seq<real> -> real)
    requires |samples| > 0 && |mss| > 0 && Rectangular(mss, |samples|)
    requires segs != [] ==> SegmentLines(segs, samples).Success?
    requires DiffFilesHold(before, files, region, data, samples)
    ensures DiffFilesHold(before, FinishFiles(files, region, samples, mss, segs, stdev, median), region, data, samples)
  {
    FinishFilesKeep(files, region, samples, mss, segs, stdev, median);
    assert Get(FinishFiles(files, region, samples, mss, segs, stdev, median), Intraindividual(region)) == Get(files, Intraindividual(region));
    assert Get(FinishFiles(files, region, samples, mss, segs, stdev, median), Interindividual(region)) == Get(files, Interindividual(region));
  }

  /** summary.tsv holds the summary of the measurements at the end of a
      region run. */
  lemma FinishSummary(before: map<FileName, seq<Line>>, files: map<FileName, seq<Line>>, region: Region,
                     data: seq<Position>, samples: seq<string>, mss: seq<seq<Measured>>, segs: seq<Segment>,
                     stdev: seq<real> -> real, median: seq<real> -> real)
    requires |samples| > 0 && |mss| > 0 && Rectangular(mss, |samples|)
    requires segs != [] ==> SegmentLines(segs, samples).Success?
    ensures Get(FinishFiles(files, region, samples, mss, segs, stdev, median), Summary(region)) ==
      Some(SummaryOf(samples, mss, stdev, median))
  {
    SegmentFilesSpec(StatsFiles(files, region, samples, mss, stdev, median), region, segs, samples);
  }

  /** histogram.tsv counts the bins of the measurements at the end of a
      region run. */
  lemma FinishHistogram(before: map<FileName, seq<Line>>, files: map<FileName, seq<Line>>, region: Region,
                     data: seq<Position>, samples: seq<string>, mss: seq<seq<Measured>>, segs: seq<Segment>,
                     stdev: seq<real> -> real, median: seq<real> -> real)
    requires |samples| > 0 && |mss| > 0 && Rectangular(mss, |samples|)
    requires segs != [] ==> SegmentLines(segs, samples).Success?
    ensures Histogram(region) in FinishFiles(files, region, samples, mss, segs, stdev, median) && HistogramHolds(FinishFiles(files, region, samples, mss, segs, stdev, median)[Histogram(region)], samples, mss)
  {
    SegmentFilesSpec(StatsFiles(files, region, samples, mss, stdev, median), region, segs, samples);
    assert FinishFiles(files, region, samples, mss, segs, stdev, median)[Histogram(region)] == HistogramOf(samples, mss);
    HistogramOfHolds(samples, mss);
  }

  /** The segment file is written exactly when there is a segment row. */
  lemma FinishSegment(before: map<FileName, seq<Line>>, files: map<FileName, seq<Line>>, region: Region,
                     data: seq<Position>, samples: seq<string>, mss: seq<seq<Measured>>, segs: seq<Segment>,
                     stdev: seq<real> -> real, median: seq<real> -> real)
    requires |samples| > 0 && |mss| > 0 && Rectangular(mss, |samples|)
    requires segs != [] ==> SegmentLines(segs, samples).Success?
    requires Get(files, SegmentFile(region)) == Get(before, SegmentFile(region))
    ensures SegmentFileHolds(before, FinishFiles(files, region, samples, mss, segs, stdev, median), region, segs, samples)
  {
    var stats := StatsFiles(files, region, samples, mss, stdev, median);
    StatsFilesKeep(files, region, samples, mss, stdev, median);
    SegmentFilesSpec(stats, region, segs, samples);
  }

  /** The end of a region run changes only files of that region. */
  lemma FinishOthers(before: map<FileName, seq<Line>>, files: map<FileName, seq<Line>>, region: Region,
                     data: seq<Position>, samples: seq<string>, mss: seq<seq<Measured>>, segs: seq<Segment>,
                     stdev: seq<real> -> real, median: seq<real> -> real)
    requires |samples| > 0 && |mss| > 0 && Rectangular(mss, |samples|)
    requires segs != [] ==> SegmentLines(segs, samples).Success?
    requires forall n :: !PositionTouches(n, region, samples) ==> Get(files, n) == Get(before, n)
    ensures OthersUnchanged(before, FinishFiles(files, region, samples, mss, segs, stdev, median), region, samples)
  {
    FinishFilesKeep(files, region, samples, mss, segs, stdev, median);
    forall n | !Touched(n, region, samples) ensures Get(FinishFiles(files, region, samples, mss, segs, stdev, median), n) == Get(before, n) {
      assert !PositionTouches(n, region, samples);
    }
  }

  /** A completed region run leaves the directory as `RegionWritten`
      describes it. */
  lemma RegionOutputHolds(before: map<FileName, seq<Line>>, region: Region, data: seq<Position>, samples: seq<string>,
                          mss: seq<seq<Measured>>, segs: seq<Segment>, stdev: seq<real> -> real, median: seq<real> -> real)
    requires Distinct(samples) && |samples| > 0 && |mss| == |data| > 0 && Rectangular(mss, |samples|) && AllSplit(samples)
    requires segs != [] ==> SegmentLines(segs, samples).Success?
    ensures RegionWritten(before, RegionOutput(before, region, data, samples, mss, segs, stdev, median),
                          region, data, samples, mss, segs, stdev, median)
  {
    var positioned := RegionFiles(MethHeaders(before, region, samples), region, data, samples, mss);
    RegionFilesHold(before, region, data, samples, mss);
    assert !PositionTouches(SegmentFile(region), region, samples);
    FinishMethFiles(before, positioned, region, data, samples, mss, segs, stdev, median);
    FinishDiffFiles(before, positioned, region, data, samples, mss, segs, stdev, median);
    FinishSummary(before, positioned, region, data, samples, mss, segs, stdev, median);
    FinishHistogram(before, positioned, region, data, samples, mss, segs, stdev, median);
    FinishSegment(before, positioned, region, data, samples, mss, segs, stdev, median);
    FinishOthers(before, positioned, region, data, samples, mss, segs, stdev, median);
  }

  /** Proof helper with no counterpart in the client: concatenation is
      associative. */
  lemma AppendAssoc<T>(a: seq<T>, b: seq<T>, c: seq<T>)
    ensures a + b + c == a + (b + c)
  {
  }

  // ---------------------------------------------------------------- the output directory

  class OutputTree {
    /** Every file under the output directory and its lines. */
    var files: map<FileName, seq<Line>>

    constructor (files: map<FileName, seq<Line>>)
      ensures this.files == files
    {
      this.files := files;
    }

    /** open(name, 'wt') and write `lines`. */
    method Write(name: FileName, lines: seq<Line>)
      modifies this
      ensures files == old(files)[name := lines]
    {
      files := files[name := lines];
    }

    /** open(name, 'at') and write one line; the file is created if missing. */
    method Append(name: FileName, line: Line)
      modifies this
      ensures files == old(files)[name := (if name in old(files) then old(files)[name] else []) + [line]]
    {
      var existing := if name in files then files[name] else [];
      files := files[name := existing + [line]];
    }

    /** os.remove(name). */
    method Remove(name: FileName)
      requires name in files
      modifies this
      ensures files == old(files) - {name}
    {
      files := files - {name};
    }

    /** Lines 214-219: each sample's meth_cg file restarts with its header. */
    method WriteMethHeaders(region: Region, samples: seq<string>)
      modifies this
      ensures files == MethHeaders(old(files), region, samples)
    {
      var j := 0;
      while j < |samples|
        invariant 0 <= j <= |samples|
        invariant files == MethHeaders(old(files), region, samples[..j])
      {
        assert samples[..j + 1][..j] == samples[..j];
        Write(MethCg(region, samples[j]), [MethHeader]);
        j := j + 1;
      }
      assert samples[..j] == samples;
    }

    /** Lines 279-284: append one row per (method, p-value) of a pair. */
    method AppendPValues(name: FileName, d: Position, pair: (string, string), pvalues: seq<(string, Value)>)
      requires name in files
      modifies this
      ensures files == old(files)[name := old(files)[name] + PValueRows(d, pair, pvalues)]
    {
      ghost var base := files[name];
      var q := 0;
      assert base + PValueRows(d, pair, pvalues[..q]) == base;
      while q < |pvalues|
        invariant 0 <= q <= |pvalues|
        invariant files == old(files)[name := base + PValueRows(d, pair, pvalues[..q])]
      {
        var (test, pvalue) := pvalues[q];
        var row := Row(NormalizeRow([d.chrom, d.pos, Str(pair.0), Str(pair.1), Str(test), pvalue], "."));
        assert pvalues[..q + 1][..q] == pvalues[..q] && pvalues[..q + 1][q] == (test, pvalue);
        assert base + PValueRows(d, pair, pvalues[..q + 1]) == base + PValueRows(d, pair, pvalues[..q]) + [row];
        Append(name, row);
        q := q + 1;
      }
      assert pvalues[..q] == pvalues;
    }

    /** Lines 272-285 for one pair: when both keys are present, append its
        rows to the file of its kind and report that kind as found. */
    method RoutePair(intraName: FileName, interName: FileName, d: Position, pair: (string, string))
      returns (isIntra: bool, isInter: bool)
      requires intraName != interName && intraName in files && interName in files
      requires d.diffmeth.Some? && Splits(pair)
      modifies this
      ensures isIntra == PairFlag(d, pair, Intra) && isInter == PairFlag(d, pair, Inter)
      ensures intraName in files && files[intraName] == old(files)[intraName] + PairRows(d, pair, Intra)
      ensures interName in files && files[interName] == old(files)[interName] + PairRows(d, pair, Inter)
      ensures Unchanged(old(files), files, intraName, interName)
    {
      isIntra, isInter := false, false;
      var entry := Entry(d.diffmeth.value, pair);
      if entry.Some? {
        if KindOf(pair) == Intra {
          isIntra := true;
          AppendPValues(intraName, d, pair, entry.value);
        } else {
          isInter := true;
          AppendPValues(interName, d, pair, entry.value);
        }
      }
    }

    /** Lines 265-285: the pairs in combinations order; each pair found
        appends its rows to the file of its kind and sets that kind's flag. */
    method RoutePairs(intraName: FileName, interName: FileName, d: Position, pairs: seq<(string, string)>)
      returns (hasIntra: bool, hasInter: bool)
      requires intraName != interName && intraName in files && interName in files
      requires d.diffmeth.Some? && AllPairsSplit(pairs)
      modifies this
      ensures hasIntra == HasKind(d, pairs, Intra) && hasInter == HasKind(d, pairs, Inter)
      ensures intraName in files && files[intraName] == old(files)[intraName] + KindRows(d, pairs, Intra)
      ensures interName in files && files[interName] == old(files)[interName] + KindRows(d, pairs, Inter)
      ensures Unchanged(old(files), files, intraName, interName)
    {
      ghost var intraBase, interBase := files[intraName], files[interName];
      hasIntra, hasInter := false, false;
      var p := 0;
      assert pairs[..p] == [];
      assert intraBase + [] == intraBase && interBase + [] == interBase;
      while p < |pairs|
        invariant 0 <= p <= |pairs|
        invariant hasIntra == HasKind(d, pairs[..p], Intra) && hasInter == HasKind(d, pairs[..p], Inter)
        invariant intraName in files && files[intraName] == intraBase + KindRows(d, pairs[..p], Intra)
        invariant interName in files && files[interName] == interBase + KindRows(d, pairs[..p], Inter)
        invariant Unchanged(old(files), files, intraName, interName)
      {
        KindRowsStep(d, pairs, p, Intra);
        KindRowsStep(d, pairs, p, Inter);
        HasKindStep(d, pairs, p, Intra);
        HasKindStep(d, pairs, p, Inter);
        ghost var mid := files;
        var isIntra, isInter := RoutePair(intraName, interName, d, pairs[p]);
        AppendAssoc(intraBase, KindRows(d, pairs[..p], Intra), PairRows(d, pairs[p], Intra));
        AppendAssoc(interBase, KindRows(d, pairs[..p], Inter), PairRows(d, pairs[p], Inter));
        UnchangedTrans(old(files), mid, files, intraName, interName);
        hasIntra, hasInter := hasIntra || isIntra, hasInter || isInter;
        p := p + 1;
      }
      assert pairs[..p] == pairs;
    }

    /** Lines 248-289 for one diff-bearing position: create a missing diff
        file with its header, append the p-value rows of every pair found
        to the file of its kind, then remove the file of a kind no pair
        was found for. */
    method RouteDiffs(region: Region, d: Position, samples: seq<string>)
      requires DiffBearing(d, samples) && AllSplit(samples)
      modifies this
      ensures files == RouteFiles(old(files), region, d, samples)
    {
      var intraName, interName := Intraindividual(region), Interindividual(region);
      ghost var before := files;
      if intraName !in files {
        Write(intraName, [DiffHeader]);
      }
      if interName !in files {
        Write(interName, [DiffHeader]);
      }
      ghost var created := files;
      assert Unchanged(before, created, intraName, interName);
      PairsSplit(samples);
      var hasIntra, hasInter := RoutePairs(intraName, interName, d, Pairs(samples));
      UnchangedTrans(before, created, files, intraName, interName);
      ghost var routed := files;
      if !hasIntra {
        Remove(intraName);
      }
      if !hasInter {
        Remove(interName);
      }
      assert Unchanged(routed, files, intraName, interName);
      UnchangedTrans(before, routed, files, intraName, interName);
      assert Get(files, intraName) == PositionStep(Get(before, intraName), d, samples, Intra);
      assert Get(files, interName) == PositionStep(Get(before, interName), d, samples, Inter);
      RouteFilesOnly(before, files, region, d, samples);
    }

    /** Lines 221-247 for one sample of one position: measure it, record
        its bin in the accumulator and append its row to its meth_cg file;
        a fault changes nothing. */
    method ProcessSample(region: Region, d: Position, id: string, acc: MethRatio) returns (r: Result<Measured, Fault>)
      requires acc.Valid() && id in acc.samples
      modifies this, acc
      ensures acc.Valid()
      ensures r == MeasureSample(d, id)
      ensures r.Success? ==> acc.ratios == old(acc.ratios)[id := old(acc.ratios)[id] + [r.value.bin]]
      ensures r.Success? ==> files == old(files)[MethCg(region, id) := Content(old(files), MethCg(region, id)) + [Row(r.value.row)]]
      ensures r.Failure? ==> files == old(files) && acc.ratios == old(acc.ratios)
    {
      r := MeasureSample(d, id);
      if r.Success? {
        var ok := acc.Record(id, r.value.bin);
        Append(MethCg(region, id), Row(r.value.row));
      }
    }

    /** Lines 221-247 for one position: each requested sample, in order;
        the first fault stops the loop. */
    method ProcessSamples(region: Region, d: Position, samples: seq<string>, acc: MethRatio)
      returns (r: Result<seq<Measured>, Fault>)
      requires acc.Valid() && acc.samples == samples
      modifies this, acc
      ensures acc.Valid()
      ensures r == MeasurePosition(d, samples)
      ensures r.Success? ==> files == AppendRows(old(files), region, samples, r.value)
      ensures r.Success? ==> acc.ratios == AppendBins(old(acc.ratios), samples, r.value)
    {
      var ms: seq<Measured> := [];
      while |ms| < |samples|
        invariant acc.Valid()
        invariant SamplesMeasured(d, samples, ms)
        invariant files == AppendRows(old(files), region, samples, ms)
        invariant acc.ratios == AppendBins(old(acc.ratios), samples, ms)
        decreases |samples| - |ms|
      {
        var m := ProcessSample(region, d, samples[|ms|], acc);
        if m.Failure? {
          PositionFault(d, samples, ms, m.error);
          return Failure(m.error);
        }
        SamplesMeasuredStep(d, samples, ms, m.value);
        AppendRowsStep(old(files), region, samples, ms, m.value);
        AppendBinsStep(old(acc.ratios), samples, ms, m.value);
        ms := ms + [m.value];
      }
      PositionMeasured(d, samples, ms);
      return Success(ms);
    }

    /** Lines 221-289 for one position: its samples, then, when it carries
        diff data and at least two samples were requested, its pairs. */
    method ProcessPosition(region: Region, d: Position, samples: seq<string>, acc: MethRatio)
      returns (r: Result<seq<Measured>, Fault>)
      requires acc.Valid() && acc.samples == samples
      modifies this, acc
      ensures acc.Valid()
      ensures r == MeasurePosition(d, samples)
      ensures r.Success? ==> AllSplit(samples)
      ensures r.Success? ==> files == PositionFiles(old(files), region, d, samples, r.value)
      ensures r.Success? ==> acc.ratios == AppendBins(old(acc.ratios), samples, r.value)
    {
      r := ProcessSamples(region, d, samples, acc);
      if r.Success? && DiffBearing(d, samples) {
        PositionSamplesSplit(d, samples);
        RouteDiffs(region, d, samples);
      } else if r.Success? {
        PositionSamplesSplit(d, samples);
      }
    }

    /** Lines 220-289: every position in order, its samples and then, when
        it carries diff data, its pairs; the first fault stops the run. */
    method ProcessPositions(region: Region, data: seq<Position>, samples: seq<string>, acc: MethRatio)
      returns (fault: Option<Fault>)
      requires acc.Valid() && acc.samples == samples
      modifies this, acc
      ensures acc.Valid()
      ensures fault.None? <==> Measurements(data, samples).Success?
      ensures fault.Some? ==> Measurements(data, samples) == Failure(fault.value)
      ensures fault.None? ==>
        (data != [] ==> AllSplit(samples)) &&
        files == RegionFiles(old(files), region, data, samples, Measurements(data, samples).value) &&
        acc.ratios == RegionBins(old(acc.ratios), samples, Measurements(data, samples).value)
    {
      ghost var mss: seq<seq<Measured>> := [];
      var i := 0;
      while i < |data|
        invariant 0 <= i <= |data| && i == |mss|
        invariant acc.Valid()
        invariant PositionsMeasured(data, samples, mss) && Rectangular(mss, |samples|)
        invariant i > 0 ==> AllSplit(samples)
        invariant files == RegionFiles(old(files), region, data[..i], samples, mss)
        invariant acc.ratios == RegionBins(old(acc.ratios), samples, mss)
      {
        var r := ProcessPosition(region, data[i], samples, acc);
        if r.Failure? {
          RegionFault(data, samples, mss, r.error);
          return Some(r.error);
        }
        PositionsMeasuredStep(data, samples, mss, r.value);
        RegionStep(old(files), region, data, samples, mss, r.value);
        BinsStep(old(acc.ratios), samples, mss, r.value);
        mss := mss + [r.value];
        i := i + 1;
      }
      assert data[..i] == data;
      RegionMeasured(data, samples, mss);
      return None;
    }

    /** Lines 291-323: summary_stat.tsv from the accumulator's lists; the
        measure rows are written only when the list of the last sample is
        non-empty. */
    method WriteSummary(region: Region, samples: seq<string>, ratios: map<string, seq<nat>>,
                        stdev: seq<real> -> real, median: seq<real> -> real)
      requires forall s :: s in samples ==> s in ratios
      requires StatsDefined(RatioColumns(ratios, samples))
      modifies this
      ensures files == old(files)[Summary(region) := SummaryLines(samples, RatioColumns(ratios, samples), stdev, median)]
    {
      Write(Summary(region), SummaryLines(samples, RatioColumns(ratios, samples), stdev, median));
    }

    /** Lines 324-334: histogram.tsv from the accumulator's counts; the
        eleven bin rows are written, one at a time, only when the list of
        the last sample is non-empty. */
    method WriteHistogram(region: Region, samples: seq<string>, counts: map<nat, map<string, nat>>,
                          ratios: map<string, seq<nat>>)
      requires |samples| > 0 && samples[|samples| - 1] in ratios
      requires forall b: nat :: b <= 10 ==> b in counts && forall s :: s in samples ==> s in counts[b]
      modifies this
      ensures files == old(files)[Histogram(region) :=
        HistogramLines(samples, counts, |ratios[samples[|samples| - 1]]| > 0)]
    {
      var lines := [Header(["#methRatio"] + samples)];
      ghost var hasData := |ratios[samples[|samples| - 1]]| > 0;
      if |ratios[samples[|samples| - 1]]| > 0 {
        var n := 0;
        assert lines + BinRows(counts, samples, 0) == lines;
        ghost var header := lines;
        while n < 11
          invariant n <= 11
          invariant lines == header + BinRows(counts, samples, n)
          invariant files == old(files)
        {
          var row := Row([BinLabel(n)] + CountCells(counts[n], samples));
          AppendAssoc(header, BinRows(counts, samples, n), [row]);
          lines := lines + [row];
          n := n + 1;
        }
      }
      assert lines == HistogramLines(samples, counts, hasData);
      Write(Histogram(region), lines);
    }

    /** Lines 356-378: collect the segment rows; write the file, header
        first, only when there is at least one row. No segment records
        leave everything as it was. */
    method WriteSegments(region: Region, segs: seq<Segment>, samples: seq<string>) returns (fault: Option<Fault>)
      modifies this
      ensures fault.None? <==> segs == [] || SegmentLines(segs, samples).Success?
      ensures fault.Some? ==> SegmentLines(segs, samples) == Failure(fault.value) && files == old(files)
      ensures fault.None? ==> files == SegmentFiles(old(files), region, segs, samples)
    {
      if segs == [] {
        return None;
      }
      var lines, f := CollectSegmentLines(segs, samples);
      if f.Some? {
        return f;
      }
      if lines != [] {
        Write(SegmentFile(region), [SegmentHeader] + AsRows(lines));
      }
      return None;
    }

    /** Lines 178-289: a fresh accumulator, the meth_cg headers, then every
        position. On success the directory is what the headers and the
        positions make of it and each sample's list holds its bins. */
    method ProcessRegion(region: Region, samples: seq<string>, data: seq<Position>)
      returns (fault: Option<Fault>, acc: MethRatio, ghost mss: seq<seq<Measured>>)
      requires Distinct(samples)
      modifies this
      ensures fresh(acc) && acc.Valid() && acc.samples == samples
      ensures fault == MeasureFault(data, samples)
      ensures fault.None? ==> Measurements(data, samples) == Success(mss)
      ensures fault.None? ==>
        && |mss| == |data| && Rectangular(mss, |samples|) && (data != [] ==> AllSplit(samples))
        && files == RegionFiles(MethHeaders(old(files), region, samples), region, data, samples, mss)
        && forall j :: 0 <= j < |samples| ==> samples[j] in acc.ratios && acc.ratios[samples[j]] == BinsOf(mss, j)
    {
      acc := new MethRatio(samples);
      mss := [];
      ghost var empty := acc.ratios;
      WriteMethHeaders(region, samples);
      fault := ProcessPositions(region, data, samples, acc);
      if fault.None? {
        mss := Measurements(data, samples).value;
        RegionBinsSpec(empty, samples, mss);
      }
    }

    /** Lines 291-334: both statistics files from an accumulator whose lists
        hold the bins of at least one position. */
    method WriteStats(region: Region, samples: seq<string>, counts: map<nat, map<string, nat>>,
                      ratios: map<string, seq<nat>>, ghost mss: seq<seq<Measured>>,
                      stdev: seq<real> -> real, median: seq<real> -> real)
      requires |samples| > 0 && |mss| > 0 && Rectangular(mss, |samples|)
      requires Consistent(samples, counts, ratios)
      requires forall j :: 0 <= j < |samples| ==> samples[j] in ratios && ratios[samples[j]] == BinsOf(mss, j)
      modifies this
      ensures files == StatsFiles(old(files), region, samples, mss, stdev, median)
    {
      SummaryOfLists(ratios, samples, mss, stdev, median);
      CountKeys(samples, counts, ratios);
      WriteSummary(region, samples, ratios, stdev, median);
      WriteHistogram(region, samples, counts, ratios);
      HistogramOfLists(samples, counts, ratios, mss);
    }

    /** Lines 291-378 once every position is processed: the summary, then,
        when there is a requested sample, the histogram and the segment
        file. Without requested samples the summary holds its header alone
        and reading the last sample's list ends the run. */
    method FinishRegion(region: Region, samples: seq<string>, counts: map<nat, map<string, nat>>,
                        ratios: map<string, seq<nat>>, ghost mss: seq<seq<Measured>>, segs: seq<Segment>,
                        stdev: seq<real> -> real, median: seq<real> -> real)
      returns (fault: Option<Fault>)
      requires |mss| > 0 && Rectangular(mss, |samples|) && Consistent(samples, counts, ratios)
      requires forall j :: 0 <= j < |samples| ==> samples[j] in ratios && ratios[samples[j]] == BinsOf(mss, j)
      modifies this
      ensures fault == FinishFault(samples, segs)
      ensures samples == [] ==> files == old(files)[Summary(region) := [Header(["#measure"])]]
      ensures fault.None? ==>
        && |samples| > 0 && (segs != [] ==> SegmentLines(segs, samples).Success?)
        && files == FinishFiles(old(files), region, samples, mss, segs, stdev, median)
    {
      if samples == [] {
        Write(Summary(region), [Header(["#measure"])]);
        fault := Some(NoSamples);
      } else {
        WriteStats(region, samples, counts, ratios, mss, stdev, median);
        fault := WriteSegments(region, segs, samples);
      }
    }

    /** Lines 173-378 after the two HTTP requests: `data` is the position
        records and `segs` the segment records of the region. No position
        record writes nothing; otherwise the meth_cg headers, the
        positions, the two statistics files and the segment file are
        written in that order, and the first fault ends the run with the
        files written so far. */
    method GetRegion(region: Region, samples: seq<string>, data: seq<Position>, segs: seq<Segment>,
                     stdev: seq<real> -> real, median: seq<real> -> real)
      returns (outcome: Outcome)
      requires Distinct(samples)
      modifies this
      ensures outcome == RunOutcome(data, samples, segs)
      ensures outcome == NoData ==> files == old(files)
      ensures data != [] && Measurements(data, samples).Success? && samples == [] ==>
        Get(files, Summary(region)) == Some([Header(["#measure"])])
      ensures outcome == Done ==>
        && Measurements(data, samples).Success? && |samples| > 0 && AllSplit(samples)
        && (segs != [] ==> SegmentLines(segs, samples).Success?)
        && files == RegionOutput(old(files), region, data, samples, Measurements(data, samples).value, segs, stdev, median)
    {
      if data == [] {
        outcome := NoData;
      } else {
        var fault, acc, mss := ProcessRegion(region, samples, data);
        if fault.Some? {
          outcome := Aborted(fault.value);
        } else {
          var counts, ratios := acc.counts, acc.ratios;
          fault := FinishRegion(region, samples, counts, ratios, mss, segs, stdev, median);
          outcome := if fault.Some? then Aborted(fault.value) else Done;
        }
      }
    }
  }
}
