/** Segment rows of `get_region`: for each segment record of the segments
    endpoint and each requested sample, in that order, one row
    (chrom, start, end, sampleCount, sample, methRatio, cgCount) when the
    sample's individual is a key of the segment's sample map and its sample
    part a key under it. */
module Segments {
  import opened Common
  import opened Measure

  /** methRatio and cgCount of one sample in one segment. */
  datatype SegmentEntry = SegmentEntry(methRatio: Value, cgCount: Value)

  /** One segment record. `samples` holds the individual entries of the
      response's `samples` object; its `sampleCount` entry is kept apart. */
  datatype Segment = Segment(
    chrom: string,
    start: Value,
    end: Value,
    sampleCount: Value,
    samples: map<string, map<string, SegmentEntry>>)

  /** The key under which the response's `samples` object holds the count. */
  const CountKey: string := "sampleCount"

  const SegmentHeader: Line :=
    Header(["#chrom", "start", "end", "sampleCount", "sample", "sample.methRatio", "sample.cgCount"])

  function SegmentRow(seg: Segment, id: string, e: SegmentEntry): seq<Value>
  {
    [Str(seg.chrom), seg.start, seg.end, seg.sampleCount, Str(id), e.methRatio, e.cgCount]
  }

  /** The entry of sample `id` in `seg`, when both keys are present. */
  function EntryOf(seg: Segment, id: string): Option<SegmentEntry>
  {
    match SplitSample(id)
    case None => None
    case Some((individual, sample)) =>
      if individual != CountKey && individual in seg.samples && sample in seg.samples[individual] then
        Some(seg.samples[individual][sample])
      else None
  }

  /** `row` is the row of sample `id` in `seg`. */
  predicate IsRowOf(seg: Segment, id: string, row: seq<Value>)
  {
    EntryOf(seg, id).Some? && row == SegmentRow(seg, id, EntryOf(seg, id).value)
  }

  /** The rows one segment gives one sample: none or one; an id that does
      not split, or whose individual part is the count key (a membership
      test on an integer), aborts the run. */
  function SampleRows(seg: Segment, id: string): (r: Result<seq<seq<Value>>, Fault>)
    ensures r.Success? ==> |r.value| <= 1
    ensures r.Success? ==> (|r.value| == 1 <==> EntryOf(seg, id).Some?)
    ensures r.Success? && |r.value| == 1 ==> r.value[0] == SegmentRow(seg, id, EntryOf(seg, id).value)
    ensures r.Failure? <==> SplitSample(id).None? || SplitSample(id).value.0 == CountKey
  {
    match SplitSample(id)
    case None => Failure(BadSampleId(id))
    case Some((individual, sample)) =>
      if individual == CountKey then Failure(SegmentCountKey(id))
      else if individual in seg.samples && sample in seg.samples[individual] then
        Success([SegmentRow(seg, id, seg.samples[individual][sample])])
      else Success([])
  }

  /** The rows of one segment, in the order of the requested samples. */
  function SegmentRows(seg: Segment, samples: seq<string>): Result<seq<seq<Value>>, Fault>
  {
    if samples == [] then Success([])
    else
      match SegmentRows(seg, samples[..|samples| - 1])
      case Failure(f) => Failure(f)
      case Success(rows) =>
        match SampleRows(seg, samples[|samples| - 1])
        case Failure(f) => Failure(f)
        case Success(more) => Success(rows + more)
  }

  /** The `lines` list: segment by segment, each in requested-sample order. */
  function SegmentLines(segs: seq<Segment>, samples: seq<string>): Result<seq<seq<Value>>, Fault>
  {
    if segs == [] then Success([])
    else
      match SegmentLines(segs[..|segs| - 1], samples)
      case Failure(f) => Failure(f)
      case Success(rows) =>
        match SegmentRows(segs[|segs| - 1], samples)
        case Failure(f) => Failure(f)
        case Success(more) => Success(rows + more)
  }

  /** A row of a segment is present exactly for the requested samples whose
      two keys are in that segment's sample map. */
  lemma {:induction false} SegmentRowsSpec(seg: Segment, samples: seq<string>)
    requires SegmentRows(seg, samples).Success?
    ensures forall row :: row in SegmentRows(seg, samples).value <==>
      exists j :: 0 <= j < |samples| && IsRowOf(seg, samples[j], row)
  {
    if samples != [] {
      var init := samples[..|samples| - 1];
      var last := samples[|samples| - 1];
      SegmentRowsSpec(seg, init);
      var rows := SegmentRows(seg, init).value;
      var more := SampleRows(seg, last).value;
      assert SegmentRows(seg, samples).value == rows + more;
      forall row | row in rows + more
        ensures exists j :: 0 <= j < |samples| && IsRowOf(seg, samples[j], row)
      {
        if row in rows {
          var j :| 0 <= j < |init| && IsRowOf(seg, init[j], row);
          assert init[j] == samples[j];
        } else {
          assert samples[|samples| - 1] == last;
        }
      }
      forall row | exists j :: 0 <= j < |samples| && IsRowOf(seg, samples[j], row)
        ensures row in rows + more
      {
        var j :| 0 <= j < |samples| && IsRowOf(seg, samples[j], row);
        if j < |init| {
          assert init[j] == samples[j];
          assert row in rows;
        } else {
          assert more == [row];
        }
      }
    }
  }

  /** Rows keep sample order within a segment: the rows for the samples
      `a` followed by `b` are the rows for `a` followed by those for `b`. */
  lemma {:induction false} SegmentRowsAppend(seg: Segment, a: seq<string>, b: seq<string>)
    requires SegmentRows(seg, a + b).Success?
    ensures SegmentRows(seg, a).Success? && SegmentRows(seg, b).Success?
    ensures SegmentRows(seg, a + b).value == SegmentRows(seg, a).value + SegmentRows(seg, b).value
  {
    if b == [] {
      assert a + b == a;
    } else {
      var b' := b[..|b| - 1];
      assert (a + b)[..|a + b| - 1] == a + b';
      assert (a + b)[|a + b| - 1] == b[|b| - 1];
      SegmentRowsAppend(seg, a, b');
    }
  }

  /** Rows keep segment order: the rows of a list of segments followed by
      more segments are the rows of the first list followed by those of the
      rest. */
  lemma {:induction false} SegmentLinesAppend(a: seq<Segment>, b: seq<Segment>, samples: seq<string>)
    requires SegmentLines(a + b, samples).Success?
    ensures SegmentLines(a, samples).Success? && SegmentLines(b, samples).Success?
    ensures SegmentLines(a + b, samples).value == SegmentLines(a, samples).value + SegmentLines(b, samples).value
  {
    if b == [] {
      assert a + b == a;
    } else {
      var b' := b[..|b| - 1];
      assert (a + b)[..|a + b| - 1] == a + b';
      assert (a + b)[|a + b| - 1] == b[|b| - 1];
      SegmentLinesAppend(a, b', samples);
    }
  }

  /** Lines 367-374: the nested loop that fills `lines`, stopping at the
      first fault. */
  method CollectSegmentLines(segs: seq<Segment>, samples: seq<string>) returns (lines: seq<seq<Value>>, fault: Option<Fault>)
    ensures fault.None? <==> SegmentLines(segs, samples).Success?
    ensures fault.None? ==> lines == SegmentLines(segs, samples).value
    ensures fault.Some? ==> SegmentLines(segs, samples) == Failure(fault.value)
  {
    lines := [];
    var i := 0;
    while i < |segs|
      invariant 0 <= i <= |segs|
      invariant SegmentLines(segs[..i], samples) == Success(lines)
    {
      var seg := segs[i];
      var j := 0;
      var rows := [];
      while j < |samples|
        invariant 0 <= j <= |samples|
        invariant SegmentRows(seg, samples[..j]) == Success(rows)
      {
        var more := SampleRows(seg, samples[j]);
        assert samples[..j + 1][..j] == samples[..j];
        if more.Failure? {
          assert SegmentRows(seg, samples[..j + 1]) == Failure(more.error);
          FailurePersists(seg, samples, j + 1);
          assert segs[..i + 1][..i] == segs[..i];
          assert samples[..|samples|] == samples;
          assert SegmentLines(segs[..i + 1], samples) == Failure(more.error);
          LinesFailurePersists(segs, samples, i + 1);
          assert segs[..|segs|] == segs;
          return [], Some(more.error);
        }
        rows := rows + more.value;
        j := j + 1;
      }
      assert samples[..|samples|] == samples;
      assert segs[..i + 1][..i] == segs[..i];
      lines := lines + rows;
      i := i + 1;
    }
    assert segs[..|segs|] == segs;
    fault := None;
  }

  /** Once the rows of a segment fail for a prefix of the samples they fail
      for every longer prefix, with the same fault. */
  lemma {:induction false} FailurePersists(seg: Segment, samples: seq<string>, k: nat)
    requires k <= |samples| && SegmentRows(seg, samples[..k]).Failure?
    ensures SegmentRows(seg, samples) == SegmentRows(seg, samples[..k])
    decreases |samples| - k
  {
    if k < |samples| {
      assert samples[..k + 1][..k] == samples[..k];
      FailurePersists(seg, samples, k + 1);
    } else {
      assert samples[..k] == samples;
    }
  }

  lemma {:induction false} LinesFailurePersists(segs: seq<Segment>, samples: seq<string>, k: nat)
    requires k <= |segs| && SegmentLines(segs[..k], samples).Failure?
    ensures SegmentLines(segs, samples) == SegmentLines(segs[..k], samples)
    decreases |segs| - k
  {
    if k < |segs| {
      assert segs[..k + 1][..k] == segs[..k];
      LinesFailurePersists(segs, samples, k + 1);
    } else {
      assert segs[..k] == segs;
    }
  }
}
