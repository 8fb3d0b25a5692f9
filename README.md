# NGSmethDB client — a Dafny model of the region pipeline

The NGSmethDB API client reads genomic regions from a BED file. For each
region it downloads the CpG methylation records of the requested samples
("individual.sample" ids) and writes, per region:

- one methylation file per sample (`meth_cg/<region>/<sample>.tsv`);
- the intraindividual and interindividual differential-methylation files
  (`diffmeth_cg/<region>/…`);
- a summary of each sample's methylation ratios (`stats/<region>/summary_stat.tsv`);
- a histogram of those ratios in eleven bins 0.0 … 1.0 (`stats/<region>/histogram.tsv`);
- the rows of the methylation segments that cover the requested samples
  (`segments/<region>.tsv`).

This project models that pipeline in Dafny and proves what each file holds
at the end of a region.

Modules, one per file:

- `Common` (common.dfy): JSON scalars and Python truthiness. It holds the
  rule that a falsy value is written as a placeholder, plus regions, output
  lines, file names and the faults that end a run.
- `Stats` (stats.dfy): `percentile` (linear interpolation on the list as
  given, which the client never sorts) and the mean.
- `Bed` (bed.dfy): `bed_reader`. It converts half-open 0-based BED rows
  into closed 1-based regions and stops at the first row it cannot convert.
- `Measure` (measure.dfy): the per-position, per-sample computation.
  - It splits the sample id and looks up every subscript (a missing key is
    a fault).
  - It computes the strand ratios, the combined counts, the merged phred
    score and the combined ratio with its histogram bin.
  - It builds the normalised 15-field row.
- `Accumulator` (accumulator.dfy): the `meth_ratio` accumulator. It is a
  class whose per-bin counts and per-sample lists are updated in place,
  with the invariant that every count is the number of occurrences of its
  bin in the sample's list.
- `Diffmeth` (diffmeth.dfy): the pairs in `itertools.combinations` order,
  the routing of p-values to the intra- or interindividual file, and the
  per-position pruning of a file whose kind was not found.
- `Report` (report.dfy): the layout of `summary_stat.tsv` and
  `histogram.tsv`.
- `Segments` (segments.dfy): the segment rows, and the nested loop that
  collects them.
- `Pipeline` (pipeline.dfy): `get_region` on an `OutputTree` class whose
  `files` map (file name to lines) is the output directory. The methods
  write, append and remove files step by step. They are proved against
  functions of the old directory, and `RegionWritten` gathers everything a
  completed region promises.

The two HTTP responses of a region are parameters of
`Pipeline.OutputTree.GetRegion`: `data` holds the position records and
`segs` the segment records. `statistics.stdev` and `statistics.median` are
parameters too.

On these points the model follows what `get_region` does:

- A diff file is pruned at every diff-bearing position: it survives the
  position when some pair of its kind has both keys present, even with no
  p-value under them. Otherwise it is removed, together with the rows that
  earlier positions wrote to it. The file is not pruned once, after all
  positions, by whether it received any row.
- The header of both diff files has no leading `#`.
- The histogram's first bin row keeps the label `0.0`: the label is a
  non-empty string when the falsy rule is applied.
- A zero combined coverage, and a ratio whose rounded value is above 1.0,
  end the run. They are the faults `ZeroCoverage` and `RatioOutOfRange`.
- With no requested sample, the summary holds its header alone and the run
  then ends (`NoSamples`).
- Segment rows are written with `str()`, so their values get no
  placeholder.

## Model

| member | source | states |
|---|---|---|
| Stats.Percentile | NGSmethDB_API_client.py:7-9 | the result is None exactly when the list is empty |
| Stats.Ceil | NGSmethDB_API_client.py:12 | math.ceil: the least integer not below k; it equals floor(k) exactly when k is whole |
| Stats.PercentileIndexes | NGSmethDB_API_client.py:10-12 | floor(k) and ceil(k) of k = (n-1)·percent are valid indexes of the list |
| Stats.PercentileSpec | NGSmethDB_API_client.py:10-17 | a whole k gives N[k]; otherwise the interpolation N[f]·(c-k) + N[c]·(k-f), which lies between its two neighbours |
| Stats.InterpolationBetween | NGSmethDB_API_client.py:15-17 | weights that are non-negative and sum to one keep the value between the two elements |
| Stats.PercentileEnds | NGSmethDB_API_client.py:7-17 | percent 0 gives the first element and percent 1 the last one |
| Stats.PercentileHalf | NGSmethDB_API_client.py:7-17 | percent 0.5 gives the middle element, or the mean of the two middle elements, of the list as given |
| Stats.PercentileIsPositional | NGSmethDB_API_client.py:7-17 | the list is not sorted: [0,1] and [1,0] give different p10 and p90 |
| Stats.Mean | NGSmethDB_API_client.py:296 | the mean of ratios in [0, 1] is in [0, 1] |
| Stats.SumBounds | NGSmethDB_API_client.py:296 | n values in [0, 1] sum to between 0 and n |
| Bed.ShowNatSpec | NGSmethDB_API_client.py:152 | str() of a natural writes at least one digit and no leading zero |
| Bed.ParseShowNat | NGSmethDB_API_client.py:152 | reading back the digits str() wrote gives the number |
| Bed.ParseShowInt | NGSmethDB_API_client.py:152 | int(str(i)) == i for every integer |
| Bed.ConvertRowSpec | NGSmethDB_API_client.py:151-155 | a row converts exactly when it has three fields and both coordinates parse; the chromosome is kept, the start becomes start + 1 and the end is kept |
| Bed.BedReaderSpec | NGSmethDB_API_client.py:148-156 | either every row is converted, in order, or the rows before the first bad row are converted, in order, and that row is reported |
| Bed.BedReaderTotal | NGSmethDB_API_client.py:148-156 | the reader yields every region exactly when every row converts |
| Bed.ConvertExample | NGSmethDB_API_client.py:152 | the row chr1 100 200 becomes the region (chr1, 101, 200) |
| Measure.DotIndexSpec | NGSmethDB_API_client.py:222 | the dot search finds the first '.' of the id, or reports that there is none |
| Measure.SplitSampleSpec | NGSmethDB_API_client.py:222 | a split id is its two dot-free parts joined by one dot |
| Measure.SplitJoin | NGSmethDB_API_client.py:222 | splitting "individual.sample" gives the two parts back |
| Measure.StrandRatio | NGSmethDB_API_client.py:227-231 | a strand ratio exists exactly when the reads and the coverage are both truthy; it is reads/coverage, positive, and at most 1 when reads do not exceed coverage |
| Measure.MergePhred | NGSmethDB_API_client.py:234-239 | the Crick score when the Watson one is falsy, else the Watson one when the Crick one is falsy, else the truncated mean, which lies between the two |
| Measure.BinSpec | NGSmethDB_API_client.py:240-241 | the model's bin is within half a tenth of the exact combined ratio m/c, and it is a histogram key (0..10) exactly when 20·m ≤ 21·c |
| Measure.MethRowSpec | NGSmethDB_API_client.py:232-247 | the written row has 15 cells and none is falsy; the combined counts are the sums of the strands; each ratio cell (the exact quotient) and the phred cell is '.' exactly when its value is missing or zero |
| Measure.MeasureSample | NGSmethDB_API_client.py:221-242 | a measured sample's bin is a key of the histogram (0..10) |
| Measure.MeasureSampleSpec | NGSmethDB_API_client.py:221-242 | the outcome case by case: a bad id, a missing key or zero coverage is its fault, and so is a combined ratio with 20·m > 21·c (the model's boundary for a bin that is no histogram key); otherwise the row and the bin of the sample |
| Measure.ReadsWithinCoverage | NGSmethDB_API_client.py:232-242 | when no strand has more reads than coverage, the combined ratio is at most 1, so the bin lookup cannot fail |
| Measure.MeasurePosition | NGSmethDB_API_client.py:221-247 | a measured position has one entry per requested sample |
| Measure.MeasurePositionSpec | NGSmethDB_API_client.py:221-247 | entry j of a measured position is sample j's measurement; a fault is the fault of one of the samples |
| Measure.Measurements | NGSmethDB_API_client.py:220-247 | a completed loop has one row of entries per position, each with one entry per sample |
| Measure.MeasurementsSpec | NGSmethDB_API_client.py:220-247 | row i of a completed loop is the measurement of position i |
| Measure.MeasuredAt | NGSmethDB_API_client.py:220-242 | entry (i, j) of a completed loop is sample j measured at position i |
| Measure.MeasuredSamplesSplit | NGSmethDB_API_client.py:222 | after a completed loop over at least one position, every requested id has split |
| Accumulator.OccurrencesAppend | NGSmethDB_API_client.py:242 | appending a bin adds one occurrence of that bin and none of any other |
| Accumulator.OccurrencesCount | NGSmethDB_API_client.py:241-242 | the occurrences of a bin are the number of list positions holding it |
| Accumulator.HistogramTotal | NGSmethDB_API_client.py:241-242 | when every entry is a bin 0..10, the eleven bin counts add up to the length of the list |
| Accumulator.ConsistentCount | NGSmethDB_API_client.py:178-184 | consistent state has a count for every bin and sample, equal to the bin's occurrences in the sample's list |
| Accumulator.RecordKeepsConsistent | NGSmethDB_API_client.py:241-242 | counting a bin and appending it to the sample's list keep counts and lists consistent |
| Accumulator.MethRatio.constructor | NGSmethDB_API_client.py:178-184 | eleven bins with a zero count per sample, and an empty list per sample, consistent |
| Accumulator.MethRatio.Record | NGSmethDB_API_client.py:241-242 | a bin 0..10 increments its count and is appended to the sample's list; a larger bin (a KeyError) changes nothing; consistency is kept |
| Diffmeth.PairsWith | NGSmethDB_API_client.py:265 | the pairs of one element with each later element, in order |
| Diffmeth.PairsCount | NGSmethDB_API_client.py:265 | there are n(n-1)/2 pairs |
| Diffmeth.PairsSpec | NGSmethDB_API_client.py:265 | a pair is listed exactly when it is (xs[i], xs[j]) for some i < j |
| Diffmeth.PairsOrder | NGSmethDB_API_client.py:265 | the pairs of the first sample come first, in the order of the rest |
| Diffmeth.PairsSplit | NGSmethDB_API_client.py:265-268 | when every sample id splits, both ids of every pair split |
| Diffmeth.PValueRows | NGSmethDB_API_client.py:279-285 | one row per (method, p-value), in order: chrom, pos, both ids, method, p-value, falsy values written as '.' |
| Diffmeth.HasKindSpec | NGSmethDB_API_client.py:272-277 | a kind is flagged exactly when some pair of that kind has both keys present, even with no p-value |
| Diffmeth.NoFlagNoRows | NGSmethDB_API_client.py:272-285 | an unflagged kind got no row; a kind with a row is flagged |
| Diffmeth.LastDiffBearing | NGSmethDB_API_client.py:248 | the last position of the region that carries diff data with at least two samples |
| Diffmeth.DiffFileExists | NGSmethDB_API_client.py:248-289 | after the region a kind's file exists exactly when the last diff-bearing position flagged that kind (or, with none, when it existed before) |
| Diffmeth.DiffFileHasHeader | NGSmethDB_API_client.py:255-289 | a diff file that exists after the region starts with its header |
| Report.Ratios | NGSmethDB_API_client.py:295 | one ratio per bin in the sample's list |
| Report.RatiosSpec | NGSmethDB_API_client.py:295 | entry i of the ratio list is bin i in tenths |
| Report.Cells | NGSmethDB_API_client.py:296-322 | one cell per sample, the measure of that sample's list |
| Report.MeasureRowsSpec | NGSmethDB_API_client.py:296-322 | row i of the measure rows is the row of measure i |
| Report.SummaryLayout | NGSmethDB_API_client.py:291-323 | the header, then, exactly when the last sample's list is non-empty, the rows average, stdev, p10, p25, p50, p75, p90 in that order |
| Report.MeasureRowSpec | NGSmethDB_API_client.py:296-322 | a measure row has the label and one non-falsy cell per sample, each the measure of that sample's list |
| Report.StdDevCell | NGSmethDB_API_client.py:300-303 | the stdev cell of a list of fewer than two ratios is '.' |
| Report.PercentileCell | NGSmethDB_API_client.py:304-322 | the percentile cells are the percentiles of each list in position order, '.' for a zero |
| Report.CountCells | NGSmethDB_API_client.py:331-332 | one cell per sample: its count of the bin, '0' for none |
| Report.BinRows | NGSmethDB_API_client.py:329-334 | row b is bin b's label followed by its count cells |
| Report.HistogramLayout | NGSmethDB_API_client.py:324-334 | the header, then, when there is data, eleven rows for bins 0.0..1.0 with one count cell per sample, '0' for none |
| Segments.SampleRows | NGSmethDB_API_client.py:369-374 | a segment gives a sample one row exactly when both of the sample's keys are present; a bad id or the sampleCount key is a fault |
| Segments.SegmentRowsSpec | NGSmethDB_API_client.py:369-374 | a row of a segment is present exactly for the requested samples whose keys are in that segment |
| Segments.SegmentRowsAppend | NGSmethDB_API_client.py:369-374 | within a segment the rows follow the requested samples' order: the rows for samples a + b are those for a followed by those for b |
| Segments.SegmentLinesAppend | NGSmethDB_API_client.py:367-374 | rows keep segment order |
| Segments.CollectSegmentLines | NGSmethDB_API_client.py:367-374 | the nested loop collects the rows of every segment and sample in order, or stops with the first fault |
| Segments.FailurePersists | NGSmethDB_API_client.py:369-372 | a fault on a sample prefix is the fault of the whole segment |
| Segments.LinesFailurePersists | NGSmethDB_API_client.py:368-372 | a fault on a segment prefix is the fault of the whole loop |
| Pipeline.MethRows | NGSmethDB_API_client.py:243-247 | sample j's file gets one row per position, in position order: its row at that position |
| Pipeline.BinsOf | NGSmethDB_API_client.py:242 | one bin per position in the sample's list |
| Pipeline.BinsOfSpec | NGSmethDB_API_client.py:242 | entry i of a sample's list is its bin at position i |
| Pipeline.Columns | NGSmethDB_API_client.py:295-322 | one ratio list per sample, each the ratios of that sample's bins |
| Pipeline.RatioColumns | NGSmethDB_API_client.py:295-322 | the lists read from the accumulator, one per requested sample |
| Pipeline.AsRows | NGSmethDB_API_client.py:375-377 | each collected segment line becomes one written row |
| Pipeline.BinCounts | NGSmethDB_API_client.py:331-332 | per sample the occurrences of the bin in its list, '0' for none |
| Pipeline.HistogramRows | NGSmethDB_API_client.py:329-334 | row b is bin b's label and its counts |
| Pipeline.HistogramOf | NGSmethDB_API_client.py:324-334 | the histogram of a region with data has 12 lines |
| Pipeline.SetFile | NGSmethDB_API_client.py:286-289 | a diff file is written when present and removed when not; nothing else changes |
| Pipeline.MethHeadersSpec | NGSmethDB_API_client.py:214-219 | each requested sample's file holds the header alone; no other file changes |
| Pipeline.HistogramCell | NGSmethDB_API_client.py:329-333 | the cell of bin b and sample j is the number of j's positions in bin b |
| Pipeline.HistogramRowAt | NGSmethDB_API_client.py:329-333 | line b + 1 of the histogram is bin b's row |
| Pipeline.HistogramOfHolds | NGSmethDB_API_client.py:324-334 | every bin row has, for each sample, the number of its positions whose ratio fell in that bin |
| Pipeline.SegmentFilesSpec | NGSmethDB_API_client.py:375-377 | the segment file is written with its header and rows exactly when there is a row; no other file changes |
| Pipeline.HistogramColumnTotal | NGSmethDB_API_client.py:324-334 | each sample's histogram column sums to the number of positions |
| Pipeline.MethFileRows | NGSmethDB_API_client.py:243-247 | every data row of a methylation file has the 15 columns of the header and no empty field |
| Pipeline.PositionFailurePersists | NGSmethDB_API_client.py:221-242 | a fault on a sample prefix is the position's fault |
| Pipeline.MeasurementsFailurePersists | NGSmethDB_API_client.py:220-242 | a fault on a position prefix is the region's fault |
| Pipeline.KindRowsStep | NGSmethDB_API_client.py:265-285 | one more pair appends its rows after the earlier pairs' rows, in its kind's file only |
| Pipeline.HasKindStep | NGSmethDB_API_client.py:272-277 | one more pair sets its kind's flag when its keys are present |
| Pipeline.PositionSamplesSplit | NGSmethDB_API_client.py:222 | a measured position had every sample id split |
| Pipeline.RatioColumnsAreColumns | NGSmethDB_API_client.py:295-322 | the accumulator's lists give the summary the same columns as the measurements |
| Pipeline.CountCellsMatch | NGSmethDB_API_client.py:331-332 | counts of the measured bins give the same histogram cells as the measurements |
| Pipeline.CountsOfBins | NGSmethDB_API_client.py:241-242 | consistent counts of the measured lists are the occurrences of each bin |
| Pipeline.HistogramFromCounts | NGSmethDB_API_client.py:324-334 | the histogram written from such counts is the histogram of the measurements |
| Pipeline.SummaryOfLists | NGSmethDB_API_client.py:291-323 | the summary written from the accumulator's lists is the summary of the measurements |
| Pipeline.HistogramOfLists | NGSmethDB_API_client.py:324-334 | with the accumulator's state the histogram condition holds and the written histogram is that of the measurements |
| Pipeline.RowsStep | NGSmethDB_API_client.py:241-247 | one more position adds its row to each sample's file and its bin to each list |
| Pipeline.PositionMeasured | NGSmethDB_API_client.py:221-247 | when every sample was measured in turn, so was the position |
| Pipeline.PositionFault | NGSmethDB_API_client.py:221-242 | the first sample that fails gives the position its fault |
| Pipeline.RegionMeasured | NGSmethDB_API_client.py:220-247 | when every position was measured in turn, so was the region |
| Pipeline.RegionFault | NGSmethDB_API_client.py:220-242 | the first position that fails gives the region its fault |
| Pipeline.AppendRowsSpec | NGSmethDB_API_client.py:243-247 | with distinct samples, each sample's file gets exactly its own row, and no other file changes |
| Pipeline.AppendBinsSpec | NGSmethDB_API_client.py:242 | with distinct samples, each list gets exactly its own bin |
| Pipeline.RouteFilesSpec | NGSmethDB_API_client.py:248-289 | a diff-bearing position takes each diff file one step (created, appended, pruned) and changes nothing else |
| Pipeline.RouteFilesOnly | NGSmethDB_API_client.py:248-289 | a directory that takes that step and changes nothing else is the routed directory |
| Pipeline.AppendRowsKeep | NGSmethDB_API_client.py:243-247 | the rows of a position change no file except the samples' own files |
| Pipeline.PositionMethRows | NGSmethDB_API_client.py:243-247 | one position appends each sample's row to its own file |
| Pipeline.PositionDiffStep | NGSmethDB_API_client.py:248-289 | one position takes the diff step on both diff files when it carries diff data, and leaves them alone otherwise |
| Pipeline.PositionKeeps | NGSmethDB_API_client.py:220-289 | one position changes no file except its samples' files and the two diff files |
| Pipeline.RegionStep | NGSmethDB_API_client.py:220-289 | one more position extends the directory of the positions before it |
| Pipeline.RegionMethFiles | NGSmethDB_API_client.py:220-247 | each sample's file ends with its rows, one per position in order |
| Pipeline.RegionDiffFiles | NGSmethDB_API_client.py:248-289 | each diff file is what the diff-bearing positions made of it |
| Pipeline.RegionOtherFiles | NGSmethDB_API_client.py:220-289 | the positions change no other file |
| Pipeline.RegionBinsSpec | NGSmethDB_API_client.py:242 | each sample's list gets its bin at every position, in position order |
| Pipeline.RegionFilesHold | NGSmethDB_API_client.py:214-289 | after the headers and the positions, each methylation file holds its header and rows and each diff file is what the positions made of it |
| Pipeline.StatsFilesKeep | NGSmethDB_API_client.py:291-334 | writing the statistics files changes no other file |
| Pipeline.FinishFilesKeep | NGSmethDB_API_client.py:291-378 | the statistics and segment files change no other file |
| Pipeline.MethFilesAgree | NGSmethDB_API_client.py:243-247 | the methylation files hold in any directory that agrees on them |
| Pipeline.FinishMethFiles | NGSmethDB_API_client.py:291-378 | the methylation files survive the statistics and segment files |
| Pipeline.FinishDiffFiles | NGSmethDB_API_client.py:291-378 | the diff files survive the statistics and segment files |
| Pipeline.FinishSummary | NGSmethDB_API_client.py:291-323 | at the end of the region, summary_stat.tsv is the summary of the measurements |
| Pipeline.FinishHistogram | NGSmethDB_API_client.py:324-334 | at the end of the region, histogram.tsv counts the measured bins |
| Pipeline.FinishSegment | NGSmethDB_API_client.py:356-378 | the segment file is written exactly when there is a segment row |
| Pipeline.FinishOthers | NGSmethDB_API_client.py:173-378 | a region run changes only files of that region |
| Pipeline.RegionOutputHolds | NGSmethDB_API_client.py:173-378 | a completed region leaves the directory as RegionWritten describes it: methylation, diff, summary, histogram and segment files as specified, and no other file changed |
| Pipeline.OutputTree.Write | NGSmethDB_API_client.py:215-219 | open in 'wt' mode and write: the file holds exactly the lines |
| Pipeline.OutputTree.Append | NGSmethDB_API_client.py:243-247 | open in 'at' mode: the line is added at the end, and a missing file is created |
| Pipeline.OutputTree.Remove | NGSmethDB_API_client.py:286-289 | os.remove: the file is gone and nothing else changes |
| Pipeline.OutputTree.WriteMethHeaders | NGSmethDB_API_client.py:214-219 | each sample's file restarts with its header |
| Pipeline.OutputTree.AppendPValues | NGSmethDB_API_client.py:279-285 | the p-value rows of a pair are appended to the file |
| Pipeline.OutputTree.RoutePair | NGSmethDB_API_client.py:266-285 | a pair appends its rows to its kind's file and sets its kind's flag exactly when its keys are present |
| Pipeline.OutputTree.RoutePairs | NGSmethDB_API_client.py:265-285 | the pairs in order append their rows; the flags are HasKind; no other file changes |
| Pipeline.OutputTree.RouteDiffs | NGSmethDB_API_client.py:248-289 | a diff-bearing position creates, fills and prunes both diff files as RouteFiles says |
| Pipeline.OutputTree.ProcessSample | NGSmethDB_API_client.py:221-247 | a sample's outcome is MeasureSample; on success its row is appended to its file and its bin to its list; on a fault nothing changes |
| Pipeline.OutputTree.ProcessSamples | NGSmethDB_API_client.py:221-247 | the position's outcome is MeasurePosition; on success each sample's row and bin are appended |
| Pipeline.OutputTree.ProcessPosition | NGSmethDB_API_client.py:221-289 | the samples, then the diff step when the position carries diff data |
| Pipeline.OutputTree.ProcessPositions | NGSmethDB_API_client.py:220-289 | the loop over positions ends with the first fault of Measurements or with the directory RegionFiles describes |
| Pipeline.OutputTree.WriteSummary | NGSmethDB_API_client.py:291-323 | summary_stat.tsv is written from the accumulator's lists |
| Pipeline.OutputTree.WriteHistogram | NGSmethDB_API_client.py:324-334 | histogram.tsv is written from the accumulator's counts, with bin rows only when the last sample's list is non-empty |
| Pipeline.OutputTree.WriteSegments | NGSmethDB_API_client.py:356-378 | the segment rows are collected; the file is written only when there is a row; a fault writes nothing |
| Pipeline.OutputTree.ProcessRegion | NGSmethDB_API_client.py:178-289 | a fresh accumulator and the headers, then every position; the fault is the first measurement fault |
| Pipeline.OutputTree.WriteStats | NGSmethDB_API_client.py:291-334 | both statistics files are those of the measurements |
| Pipeline.OutputTree.FinishRegion | NGSmethDB_API_client.py:291-378 | the summary, the histogram and the segment file, or the fault of no samples or of the segment rows |
| Pipeline.OutputTree.GetRegion | NGSmethDB_API_client.py:173-378 | no position record writes nothing; otherwise the outcome is the first fault or completion, and a completed region leaves exactly the directory RegionOutput describes |

## Left out

- The HTTP requests, retries, status checks and JSON decoding are not modelled. The two responses are parameters of GetRegion, and a network failure (SystemExit) is not modelled.
- Logging, the progress bar, the dialogs, the welcome text, `config_parser`, `make_outdir`, `get_total`, argument parsing and the main loop are left out, because they are user interface and process plumbing.
- Directory creation (`os.makedirs`) is left out: the output tree is a map from file names to lines, and directories have no contents of their own.
- upgrade_NGSmethDB_API_client.py is not part of this model.
- CSV reading and tab joining are left out: BED rows arrive already split into fields, and written lines are lists of cells.
- Number formatting is left out: `str()` of a float or an integer is the value itself (`Value`), except in `Bed`, where the converted coordinates are printed as decimal strings.
- Bed.ParseInt: accepts an optional sign and ASCII decimal digits only. Python's int() also accepts surrounding whitespace, underscores between digits and non-ASCII Unicode decimal digits (Arabic-Indic digits, for example).
- Measure.StrandRatio: the printed ratios are the exact quotients; the rounding to two decimals of the strand and combined ratios is not modelled.
- Measure.MethRowSpec: the ratio cells 12-14 are written as '.' only when the ratio is missing or its reads are zero. The client rounds each ratio to two decimals before its falsy test, so it also writes '.' for every nonzero ratio whose rounding is 0.0, that is when 200·reads < coverage (up to float rounding): 1 read over a coverage of 250 gives '.' in the client and 0.004 in the model.
- Measure.BinSpec: the bin is the nearest tenth of the exact ratio, ties to even. Python rounds a binary float twice (`round(x, 2)`, then `round(·, 1)`), which can give the other neighbour near a tie. For example, 7/20 is stored slightly below 0.35, so Python's bin is 0.3 while the model's is 0.4.
- Measure.MeasureSampleSpec: the `RatioOutOfRange` fault is stated for the exact ratio above 21/20. The client rounds the float ratio to two decimals and then to one, and `round(1.05, 1)` is 1.1 because the float 1.05 is stored slightly above 1.05. So the client already raises KeyError for every ratio whose two-decimal rounding is 1.05 (from about 1.045 upwards, 21/20 included), where the model gives bin 10 and succeeds.
- Stats.Percentile: requires 0 <= percent <= 1. The client only passes 0.1, 0.25, 0.75 and 0.9; other percents could index outside the list or wrap around through negative indexing.
- Report.Cell: `statistics.stdev` and `statistics.median` are parameters, not definitions. The stdev and median cells are stated in terms of them.
- Pipeline.OutputTree.GetRegion: requires distinct sample ids. With a repeated id the client appends twice to the same file and list, which the model does not describe.
- Pipeline.OutputTree.GetRegion: on an aborted run, the outcome is the fault, but the files written before it are not described.
- Pipeline.OutputTree.FinishRegion: the histogram is stated for the case where its bin rows exist. The accumulator's lists all grow with every position, so the last sample's list is non-empty whenever a region has data.
- Opening a file once per appended row, and the order of writes between files, are not modelled: each method states the resulting directory.
