/** The per-position, per-sample computation of `get_region`: a position
    record returned by the methylation endpoint is looked up for one sample
    ("individual.sample") and turned into strand ratios, combined counts,
    a merged phred score, a combined ratio with its histogram bin, and the
    15-field row of that sample's methylation file. */
module Measure {
  import opened Common

  /** A nested JSON object keyed by individual, then by sample part. */
  type Table<V> = map<string, map<string, V>>

  /** The p-values of one position: individual pair, then sample pair, then
      the (method, p-value) entries in the order the response lists them. */
  type DiffTable = map<string, map<string, seq<(string, Value)>>>

  /** The per-strand counts under meth_cg.w or meth_cg.c. */
  datatype Strand = Strand(
    methylatedReads: Table<Option<nat>>,
    coverage: Table<Option<nat>>,
    phredScore: Table<Option<nat>>)

  /** One position record of the methylation response. */
  datatype Position = Position(
    chrom: Value,
    pos: Value,
    genotype: Table<Value>,
    w: Strand,
    c: Strand,
    diffmeth: Option<DiffTable>)   // None when the record has no diffmeth_cg key

  /** The counts of one strand for one sample. */
  datatype StrandCounts = StrandCounts(methylatedReads: Option<nat>, coverage: Option<nat>, phredScore: Option<nat>)

  /** What `get_region` reads from a position record for one sample. */
  datatype Counts = Counts(genotype: Value, w: StrandCounts, c: StrandCounts)

  /** What one (position, sample) step produces: the normalised row of the
      sample's methylation file and the histogram bin of its ratio. */
  datatype Measured = Measured(row: seq<Value>, bin: nat)

  // ---------------------------------------------------------------- sample ids

  /** The index of the first '.' of `s`. */
  function DotIndex(s: string): (r: Option<nat>)
    ensures r.Some? ==> r.value < |s|
  {
    if s == [] then None
    else if s[0] == '.' then Some(0)
    else match DotIndex(s[1..])
      case None => None
      case Some(k) => Some(k + 1)
  }

  /** DotIndex finds the first dot, and None means there is none. */
  lemma {:induction false} DotIndexSpec(s: string)
    ensures var r := DotIndex(s);
      (r.None? ==> '.' !in s) &&
      (r.Some? ==> r.value < |s| && s[r.value] == '.' && '.' !in s[..r.value])
  {
    if s != [] && s[0] != '.' {
      DotIndexSpec(s[1..]);
      assert s == [s[0]] + s[1..];
      match DotIndex(s[1..])
      case None =>
      case Some(k) => assert s[..k + 1] == [s[0]] + s[1..][..k];
    }
  }

  /** `individual, s = sample.split('.')`: succeeds only when the id holds
      exactly one dot. */
  function SplitSample(id: string): Option<(string, string)>
  {
    match DotIndex(id)
    case None => None
    case Some(k) => if DotIndex(id[k + 1..]).Some? then None else Some((id[..k], id[k + 1..]))
  }

  /** A split id is its two dot-free parts joined by the dot. */
  lemma SplitSampleSpec(id: string)
    ensures var r := SplitSample(id);
      r.Some? ==> id == r.value.0 + "." + r.value.1 && '.' !in r.value.0 && '.' !in r.value.1
  {
    DotIndexSpec(id);
    match DotIndex(id)
    case None =>
    case Some(k) =>
      DotIndexSpec(id[k + 1..]);
      assert id == id[..k] + "." + id[k + 1..];
  }

  /** Joining two dot-free parts with a dot and splitting gives the parts
      back; so an id fails to split exactly when it is not of that form. */
  lemma SplitJoin(individual: string, sample: string)
    requires '.' !in individual && '.' !in sample
    ensures SplitSample(individual + "." + sample) == Some((individual, sample))
  {
    var id := individual + "." + sample;
    DotIndexOfJoin(individual, sample);
    assert id[..|individual|] == individual;
    assert id[|individual| + 1..] == sample;
    DotIndexSpec(sample);
  }

  lemma {:induction false} DotIndexOfJoin(individual: string, sample: string)
    requires '.' !in individual
    ensures DotIndex(individual + "." + sample) == Some(|individual|)
  {
    if individual != [] {
      assert (individual + "." + sample)[1..] == individual[1..] + "." + sample;
      DotIndexOfJoin(individual[1..], sample);
    }
  }

  // ---------------------------------------------------------------- lookups

  function Lookup<V>(t: Table<V>, individual: string, sample: string): Option<V>
  {
    if individual in t && sample in t[individual] then Some(t[individual][sample]) else None
  }

  function LookupStrand(st: Strand, individual: string, sample: string): Option<StrandCounts>
  {
    match (Lookup(st.methylatedReads, individual, sample), Lookup(st.coverage, individual, sample), Lookup(st.phredScore, individual, sample))
    case (Some(r), Some(cv), Some(p)) => Some(StrandCounts(r, cv, p))
    case _ => None
  }

  /** Every subscript of lines 223-230; a missing key is a KeyError. */
  function LookupCounts(d: Position, individual: string, sample: string): Option<Counts>
  {
    match (Lookup(d.genotype, individual, sample), LookupStrand(d.w, individual, sample), LookupStrand(d.c, individual, sample))
    case (Some(g), Some(w), Some(c)) => Some(Counts(g, w, c))
    case _ => None
  }

  // ---------------------------------------------------------------- arithmetic

  /** A count as `filter(None, ...)` and `sum` see it: None adds nothing. */
  function Count(o: Option<nat>): nat
  {
    if o.Some? then o.value else 0
  }

  /** `round(methylated/coverage, 2) if methylated and coverage else None`, with the
      exact quotient in place of the two-decimal rounding. */
  function StrandRatio(methylated: Option<nat>, coverage: Option<nat>): (r: Option<real>)
    ensures r.Some? <==> Count(methylated) > 0 && Count(coverage) > 0
    ensures r.Some? ==> r.value * (coverage.value as real) == methylated.value as real
    ensures r.Some? ==> 0.0 < r.value
    ensures r.Some? && methylated.value <= coverage.value ==> r.value <= 1.0
  {
    if Count(methylated) > 0 && Count(coverage) > 0 then
      QuotientFacts(methylated.value, coverage.value);
      Some(methylated.value as real / coverage.value as real)
    else None
  }

  /** The quotient of two positive counts times the divisor is the
      dividend; it is positive, and at most one when the dividend is not
      larger. */
  lemma QuotientFacts(m: nat, c: nat)
    requires m > 0 && c > 0
    ensures (m as real / c as real) * (c as real) == m as real
    ensures 0.0 < m as real / c as real
    ensures m <= c ==> m as real / c as real <= 1.0
  {
    var q := m as real / c as real;
    assert q * (c as real) == m as real;
    if m <= c && q > 1.0 {
      assert q * (c as real) > c as real;
    }
  }

  /** The merged phred score: the Crick value when the Watson one is None or
      0, else the Watson value when the Crick one is None or 0, else the
      truncated mean of the two. */
  function MergePhred(w: Option<nat>, c: Option<nat>): (r: Option<nat>)
    ensures Count(w) == 0 ==> r == c
    ensures Count(w) > 0 && Count(c) == 0 ==> r == w
    ensures Count(w) > 0 && Count(c) > 0 ==>
      r.Some? && 2 * r.value <= w.value + c.value < 2 * r.value + 2 &&
      (w.value <= r.value <= c.value || c.value <= r.value <= w.value)
  {
    if Count(w) == 0 then c
    else if Count(c) == 0 then w
    else Some((w.value + c.value) / 2)
  }

  /** The histogram bin of methylated/coverage: the nearest tenth, in tenths,
      with a tie going to the even neighbour. */
  function Bin(methylated: nat, coverage: nat): nat
    requires coverage > 0
  {
    var q, rem := (10 * methylated) / coverage, (10 * methylated) % coverage;
    if 2 * rem < coverage then q
    else if 2 * rem > coverage then q + 1
    else if q % 2 == 0 then q
    else q + 1
  }

  /** The bin is within half a tenth of the ratio, and it is a key of the
      0.0 .. 1.0 histogram exactly when the ratio is at most 1.05. */
  lemma BinSpec(methylated: nat, coverage: nat)
    requires coverage > 0
    ensures var b := Bin(methylated, coverage);
      2 * (b * coverage - 10 * methylated) <= coverage &&
      2 * (10 * methylated - b * coverage) <= coverage &&
      (b <= 10 <==> 20 * methylated <= 21 * coverage)
  {
    var q, rem := (10 * methylated) / coverage, (10 * methylated) % coverage;
    BinFacts(methylated, coverage, q, rem, Bin(methylated, coverage));
  }

  lemma BinFacts(methylated: nat, coverage: nat, q: nat, rem: nat, b: nat)
    requires coverage > 0 && 10 * methylated == q * coverage + rem && rem < coverage
    requires b == q || b == q + 1
    requires b == q ==> 2 * rem <= coverage
    requires b == q + 1 ==> 2 * rem >= coverage
    requires 2 * rem == coverage ==> b % 2 == 0
    ensures 2 * (b * coverage - 10 * methylated) <= coverage
    ensures 2 * (10 * methylated - b * coverage) <= coverage
    ensures b <= 10 <==> 20 * methylated <= 21 * coverage
  {
    var m := 10 * methylated;
    if b == q {
      assert b * coverage - m == 0 - rem as int;
    } else {
      assert b * coverage == q * coverage + coverage;
      assert b * coverage - m == coverage - rem;
    }
    if q >= 11 {
      MulLe(11, q, coverage);
      assert 2 * m >= 22 * coverage;
    } else if q <= 9 {
      MulLe(q, 9, coverage);
      assert m < 10 * coverage;
    } else {
      assert m == 10 * coverage + rem;
    }
  }

  lemma MulLe(a: nat, b: nat, c: nat)
    requires a <= b
    ensures a * c <= b * c
  {}

  /** Combined methylated reads: `sum(filter(None, [w, c]))`. */
  function CombinedReads(k: Counts): nat
  {
    Count(k.w.methylatedReads) + Count(k.c.methylatedReads)
  }

  /** Combined coverage: `sum(filter(None, [w, c]))`. */
  function CombinedCoverage(k: Counts): nat
  {
    Count(k.w.coverage) + Count(k.c.coverage)
  }

  /** The 15 values of a methylation row before the falsy-to-'.' rule:
      chrom, pos, genotype, the three Watson counts, the three Crick counts,
      combined reads, combined coverage, merged phred, the Watson, Crick and
      combined ratios. */
  function RawRow(d: Position, k: Counts): seq<Value>
    requires CombinedCoverage(k) > 0
  {
    [d.chrom, d.pos, k.genotype,
     OptNat(k.w.methylatedReads), OptNat(k.w.coverage), OptNat(k.w.phredScore),
     OptNat(k.c.methylatedReads), OptNat(k.c.coverage), OptNat(k.c.phredScore),
     Int(CombinedReads(k)), Int(CombinedCoverage(k)), OptNat(MergePhred(k.w.phredScore, k.c.phredScore)),
     OptReal(StrandRatio(k.w.methylatedReads, k.w.coverage)),
     OptReal(StrandRatio(k.c.methylatedReads, k.c.coverage)),
     Real(CombinedReads(k) as real / CombinedCoverage(k) as real)]
  }

  /** The row written to the sample's file: every falsy value becomes '.'. */
  function MethRow(d: Position, k: Counts): seq<Value>
    requires CombinedCoverage(k) > 0
  {
    NormalizeRow(RawRow(d, k), ".")
  }

  /** The written row has 15 cells and no falsy one; the combined counts are
      the sums of the strands' non-None values; a ratio cell is '.' exactly
      when there is no ratio (a strand with 0 methylated reads has none, and
      the combined ratio of 0 reads is 0.0, also written '.'); the merged
      phred cell is '.' exactly when the merged score is None or 0. */
  lemma MethRowSpec(d: Position, k: Counts)
    requires CombinedCoverage(k) > 0
    ensures |MethRow(d, k)| == 15
    ensures forall i :: 0 <= i < 15 ==> !Falsy(MethRow(d, k)[i])
    ensures MethRow(d, k)[9] == (if CombinedReads(k) == 0 then Str(".") else Int(CombinedReads(k)))
    ensures MethRow(d, k)[10] == Int(CombinedCoverage(k))
    ensures MethRow(d, k)[11] == Str(".") <==> Count(MergePhred(k.w.phredScore, k.c.phredScore)) == 0
    ensures MethRow(d, k)[12] == Str(".") <==> StrandRatio(k.w.methylatedReads, k.w.coverage).None?
    ensures MethRow(d, k)[13] == Str(".") <==> StrandRatio(k.c.methylatedReads, k.c.coverage).None?
    ensures MethRow(d, k)[14] == Str(".") <==> CombinedReads(k) == 0
  {
    var raw := RawRow(d, k);
    var row := MethRow(d, k);
    forall i | 0 <= i < 15 ensures !Falsy(row[i]) {
      assert row[i] == Normalize(raw[i], ".");
    }
    assert row[9] == Normalize(raw[9], ".");
    assert row[10] == Normalize(raw[10], ".");
    assert row[11] == Normalize(raw[11], ".");
    assert row[12] == Normalize(raw[12], ".");
    assert row[13] == Normalize(raw[13], ".");
    assert row[14] == Normalize(raw[14], ".");
  }

  /** One step of the data x samples loop, or the fault that aborts the run
      there: a sample id without exactly one dot (ValueError), a missing key
      (KeyError), a zero combined coverage (ZeroDivisionError), or a ratio
      above 1.05 whose rounded value is no histogram key (KeyError). */
  function MeasureSample(d: Position, id: string): (r: Result<Measured, Fault>)
    ensures r.Success? ==> r.value.bin <= 10
  {
    match SplitSample(id)
    case None => Failure(BadSampleId(id))
    case Some((individual, sample)) =>
      match LookupCounts(d, individual, sample)
      case None => Failure(MissingEntry(id))
      case Some(k) =>
        if CombinedCoverage(k) == 0 then Failure(ZeroCoverage(id))
        else if Bin(CombinedReads(k), CombinedCoverage(k)) > 10 then Failure(RatioOutOfRange(id))
        else Success(Measured(MethRow(d, k), Bin(CombinedReads(k), CombinedCoverage(k))))
  }

  /** The outcome of one step, case by case: which fault each missing
      piece raises, and the row and bin of a successful step. */
  lemma MeasureSampleSpec(d: Position, id: string)
    ensures var r := MeasureSample(d, id);
      SplitSample(id).None? ==> r == Failure(BadSampleId(id))
    ensures var r := MeasureSample(d, id);
      SplitSample(id).Some? ==>
      var (individual, sample) := SplitSample(id).value;
      var k := LookupCounts(d, individual, sample);
      (k.None? ==> r == Failure(MissingEntry(id))) &&
      (k.Some? && CombinedCoverage(k.value) == 0 ==> r == Failure(ZeroCoverage(id))) &&
      (k.Some? && CombinedCoverage(k.value) > 0 && 20 * CombinedReads(k.value) > 21 * CombinedCoverage(k.value) ==>
         r == Failure(RatioOutOfRange(id))) &&
      (k.Some? && CombinedCoverage(k.value) > 0 && 20 * CombinedReads(k.value) <= 21 * CombinedCoverage(k.value) ==>
         r.Success? && r.value.bin == Bin(CombinedReads(k.value), CombinedCoverage(k.value)) &&
         r.value.row == MethRow(d, k.value))
  {
    match SplitSample(id)
    case None =>
    case Some((individual, sample)) =>
      match LookupCounts(d, individual, sample)
      case None =>
      case Some(k) =>
        if CombinedCoverage(k) > 0 {
          BinSpec(CombinedReads(k), CombinedCoverage(k));
        }
  }

  /** When each strand has no more methylated reads than coverage, the
      combined ratio lies in [0, 1], so a step can only abort for a bad id,
      a missing key or zero coverage. */
  lemma ReadsWithinCoverage(k: Counts)
    requires Count(k.w.methylatedReads) <= Count(k.w.coverage)
    requires Count(k.c.methylatedReads) <= Count(k.c.coverage)
    ensures CombinedReads(k) <= CombinedCoverage(k)
    ensures CombinedCoverage(k) > 0 ==> Bin(CombinedReads(k), CombinedCoverage(k)) <= 10
  {
    if CombinedCoverage(k) > 0 {
      BinSpec(CombinedReads(k), CombinedCoverage(k));
    }
  }

  /** All samples of one position, in the order requested. */
  function MeasurePosition(d: Position, samples: seq<string>): (r: Result<seq<Measured>, Fault>)
    ensures r.Success? ==> |r.value| == |samples|
  {
    if samples == [] then Success([])
    else
      match MeasurePosition(d, samples[..|samples| - 1])
      case Failure(f) => Failure(f)
      case Success(ms) =>
        match MeasureSample(d, samples[|samples| - 1])
        case Failure(f) => Failure(f)
        case Success(m) => Success(ms + [m])
  }

  /** A position is measured when every sample is, each entry being that
      sample's measurement; a fault is the fault of one of the samples. */
  lemma {:induction false} MeasurePositionSpec(d: Position, samples: seq<string>)
    ensures var r := MeasurePosition(d, samples);
      r.Success? ==> forall j :: 0 <= j < |samples| ==> MeasureSample(d, samples[j]) == Success(r.value[j])
    ensures var r := MeasurePosition(d, samples);
      r.Failure? ==> exists j :: 0 <= j < |samples| && MeasureSample(d, samples[j]) == Failure(r.error)
  {
    if samples != [] {
      var init := samples[..|samples| - 1];
      var last := samples[|samples| - 1];
      MeasurePositionSpec(d, init);
      var r := MeasurePosition(d, samples);
      var before := MeasurePosition(d, init);
      if before.Failure? {
        assert r == before;
        var j :| 0 <= j < |init| && MeasureSample(d, init[j]) == Failure(r.error);
        assert init[j] == samples[j];
      } else if MeasureSample(d, last).Failure? {
        assert r == Failure(MeasureSample(d, last).error);
      } else {
        assert r.value == before.value + [MeasureSample(d, last).value];
        forall j | 0 <= j < |samples| ensures MeasureSample(d, samples[j]) == Success(r.value[j]) {
          if j < |init| {
            assert init[j] == samples[j] && r.value[j] == before.value[j];
          } else {
            assert j == |samples| - 1;
          }
        }
      }
    }
  }

  /** The whole data x samples loop: one row of results per position, or the
      first fault in position-major order. */
  function Measurements(data: seq<Position>, samples: seq<string>): (r: Result<seq<seq<Measured>>, Fault>)
    ensures r.Success? ==> |r.value| == |data| && forall i :: 0 <= i < |data| ==> |r.value[i]| == |samples|
  {
    if data == [] then Success([])
    else
      match Measurements(data[..|data| - 1], samples)
      case Failure(f) => Failure(f)
      case Success(mss) =>
        match MeasurePosition(data[|data| - 1], samples)
        case Failure(f) => Failure(f)
        case Success(ms) => Success(mss + [ms])
  }

  /** Each row of results is the measurement of its position. */
  lemma {:induction false} MeasurementsSpec(data: seq<Position>, samples: seq<string>)
    ensures var r := Measurements(data, samples);
      r.Success? ==> forall i :: 0 <= i < |data| ==> MeasurePosition(data[i], samples) == Success(r.value[i])
  {
    if data != [] {
      var init := data[..|data| - 1];
      MeasurementsSpec(init, samples);
      var r := Measurements(data, samples);
      var before := Measurements(init, samples);
      if r.Success? {
        assert before.Success? && MeasurePosition(data[|data| - 1], samples).Success?;
        assert r.value == before.value + [MeasurePosition(data[|data| - 1], samples).value];
        forall i | 0 <= i < |data| ensures MeasurePosition(data[i], samples) == Success(r.value[i]) {
          if i < |init| {
            assert init[i] == data[i] && r.value[i] == before.value[i];
          } else {
            assert i == |data| - 1;
          }
        }
      }
    }
  }

  /** Entry (i, j) of a successful loop is the measurement of sample j at
      position i. */
  lemma MeasuredAt(data: seq<Position>, samples: seq<string>, i: nat, j: nat)
    requires Measurements(data, samples).Success? && i < |data| && j < |samples|
    ensures MeasureSample(data[i], samples[j]) == Success(Measurements(data, samples).value[i][j])
  {
    MeasurementsSpec(data, samples);
    MeasurePositionSpec(data[i], samples);
  }

  /** After a successful loop over at least one position, every requested
      sample id split into an individual and a sample part. */
  lemma MeasuredSamplesSplit(data: seq<Position>, samples: seq<string>)
    requires |data| > 0 && Measurements(data, samples).Success?
    ensures forall s :: s in samples ==> SplitSample(s).Some?
  {
    forall s | s in samples ensures SplitSample(s).Some? {
      var j :| 0 <= j < |samples| && samples[j] == s;
      MeasuredAt(data, samples, 0, j);
      MeasureSampleSpec(data[0], samples[j]);
    }
  }
}
