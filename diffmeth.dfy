/** Differential-methylation routing of `get_region`: at a position that
    carries diffmeth_cg data (and when at least two samples were requested)
    every unordered pair of requested samples, in itertools.combinations
    order, is looked up under "individual1#individual2" and
    "sample1#sample2"; each (method, p-value) found becomes a row of the
    intraindividual file (same individual) or the interindividual file.
    Afterwards a kind's file is removed when no pair of that kind was found
    at this position, whatever earlier positions wrote to it. */
module Diffmeth {
  import opened Common
  import opened Measure

  datatype Kind = Intra | Inter

  /** The header of both diff files; unlike the other files it has no '#'. */
  const DiffHeader: Line := Header(["chrom", "pos", "sample1", "sample2", "method", "pvalue"])

  // ---------------------------------------------------------------- pairs

  /** (x, y) for every y of ys, in order. */
  function PairsWith(x: string, ys: seq<string>): (r: seq<(string, string)>)
    ensures |r| == |ys|
    ensures forall k :: 0 <= k < |ys| ==> r[k] == (x, ys[k])
  {
    if ys == [] then [] else [(x, ys[0])] + PairsWith(x, ys[1..])
  }

  /** itertools.combinations(samples, 2). */
  function Pairs(xs: seq<string>): seq<(string, string)>
  {
    if xs == [] then [] else PairsWith(xs[0], xs[1..]) + Pairs(xs[1..])
  }

  /** There are n(n-1)/2 pairs. */
  lemma {:induction false} PairsCount(xs: seq<string>)
    ensures 2 * |Pairs(xs)| == |xs| * (|xs| - 1)
  {
    if xs != [] {
      PairsCount(xs[1..]);
    }
  }

  /** A pair is listed exactly when it is (xs[i], xs[j]) for some i < j. */
  lemma {:induction false} PairsSpec(xs: seq<string>)
    ensures forall p :: p in Pairs(xs) <==> exists i, j :: 0 <= i < j < |xs| && p == (xs[i], xs[j])
  {
    if xs != [] {
      var tail := xs[1..];
      PairsSpec(tail);
      var first := PairsWith(xs[0], tail);
      assert Pairs(xs) == first + Pairs(tail);
      forall p | p in Pairs(xs)
        ensures exists i, j :: 0 <= i < j < |xs| && p == (xs[i], xs[j])
      {
        if p in first {
          var k :| 0 <= k < |tail| && first[k] == p;
          assert p == (xs[0], xs[k + 1]);
        } else {
          var i, j :| 0 <= i < j < |tail| && p == (tail[i], tail[j]);
          assert p == (xs[i + 1], xs[j + 1]);
        }
      }
      forall p | exists i, j :: 0 <= i < j < |xs| && p == (xs[i], xs[j])
        ensures p in Pairs(xs)
      {
        var i, j :| 0 <= i < j < |xs| && p == (xs[i], xs[j]);
        if i == 0 {
          assert first[j - 1] == p;
        } else {
          assert p == (tail[i - 1], tail[j - 1]);
        }
      }
    }
  }

  /** The pairs of the first element come first, in the order of the rest. */
  lemma PairsOrder(xs: seq<string>)
    requires |xs| >= 2
    ensures Pairs(xs)[..|xs| - 1] == PairsWith(xs[0], xs[1..])
  {
  }

  // ---------------------------------------------------------------- one pair

  /** The individual and sample parts of both members of a pair. */
  predicate Splits(pair: (string, string))
  {
    SplitSample(pair.0).Some? && SplitSample(pair.1).Some?
  }

  function KindOf(pair: (string, string)): Kind
    requires Splits(pair)
  {
    if SplitSample(pair.0).value.0 == SplitSample(pair.1).value.0 then Intra else Inter
  }

  /** The p-values of a pair when both keys are present. */
  function Entry(table: DiffTable, pair: (string, string)): Option<seq<(string, Value)>>
    requires Splits(pair)
  {
    var (i1, s1) := SplitSample(pair.0).value;
    var (i2, s2) := SplitSample(pair.1).value;
    var individualPair := i1 + "#" + i2;
    var samplePair := s1 + "#" + s2;
    if individualPair in table && samplePair in table[individualPair] then
      Some(table[individualPair][samplePair])
    else None
  }

  /** One row per (method, p-value): chrom, pos, both ids, method, p-value,
      falsy values written as '.'. */
  function PValueRows(d: Position, pair: (string, string), pvalues: seq<(string, Value)>): (r: seq<Line>)
    ensures |r| == |pvalues|
    ensures forall k :: 0 <= k < |r| ==>
      r[k] == Row(NormalizeRow([d.chrom, d.pos, Str(pair.0), Str(pair.1), Str(pvalues[k].0), pvalues[k].1], "."))
  {
    if pvalues == [] then []
    else
      var (name, pvalue) := pvalues[|pvalues| - 1];
      PValueRows(d, pair, pvalues[..|pvalues| - 1]) +
      [Row(NormalizeRow([d.chrom, d.pos, Str(pair.0), Str(pair.1), Str(name), pvalue], "."))]
  }

  // ---------------------------------------------------------------- one position

  /** Whether a diff-bearing position feeds the diff files at all. */
  predicate DiffBearing(d: Position, samples: seq<string>)
  {
    |samples| >= 2 && d.diffmeth.Some?
  }

  predicate AllPairsSplit(pairs: seq<(string, string)>)
  {
    forall i :: 0 <= i < |pairs| ==> Splits(pairs[i])
  }

  predicate AllSplit(samples: seq<string>)
  {
    forall s :: s in samples ==> SplitSample(s).Some?
  }

  lemma PairsSplit(samples: seq<string>)
    requires AllSplit(samples)
    ensures AllPairsSplit(Pairs(samples))
  {
    PairsSpec(samples);
  }

  /** Whether `pair` has both keys present and is of `kind`. */
  predicate PairFlag(d: Position, pair: (string, string), kind: Kind)
    requires d.diffmeth.Some? && Splits(pair)
  {
    Entry(d.diffmeth.value, pair).Some? && KindOf(pair) == kind
  }

  /** The rows one pair writes to the file of `kind`. */
  function PairRows(d: Position, pair: (string, string), kind: Kind): seq<Line>
    requires d.diffmeth.Some? && Splits(pair)
  {
    if PairFlag(d, pair, kind) then PValueRows(d, pair, Entry(d.diffmeth.value, pair).value) else []
  }

  /** The rows that the pairs write to the file of `kind`, in pair order. */
  function KindRows(d: Position, pairs: seq<(string, string)>, kind: Kind): seq<Line>
    requires d.diffmeth.Some?
    requires AllPairsSplit(pairs)
  {
    if pairs == [] then []
    else KindRows(d, pairs[..|pairs| - 1], kind) + PairRows(d, pairs[|pairs| - 1], kind)
  }

  /** The `has_intraindividual` / `has_interindividual` flag after the
      pairs. */
  function HasKind(d: Position, pairs: seq<(string, string)>, kind: Kind): bool
    requires d.diffmeth.Some?
    requires AllPairsSplit(pairs)
  {
    if pairs == [] then false
    else HasKind(d, pairs[..|pairs| - 1], kind) || PairFlag(d, pairs[|pairs| - 1], kind)
  }

  /** A kind is flagged exactly when some pair of that kind has both keys
      present, even with no p-value under them. */
  lemma {:induction false} HasKindSpec(d: Position, pairs: seq<(string, string)>, kind: Kind)
    requires d.diffmeth.Some?
    requires AllPairsSplit(pairs)
    ensures HasKind(d, pairs, kind) <==>
      exists p :: p in pairs && KindOf(p) == kind && Entry(d.diffmeth.value, p).Some?
  {
    if pairs != [] {
      var init := pairs[..|pairs| - 1];
      HasKindSpec(d, init, kind);
      assert pairs == init + [pairs[|pairs| - 1]];
    }
  }

  /** A kind that was never flagged got no row; a file kept with no row
      happens only when a present pair had an empty p-value table. */
  lemma {:induction false} NoFlagNoRows(d: Position, pairs: seq<(string, string)>, kind: Kind)
    requires d.diffmeth.Some?
    requires AllPairsSplit(pairs)
    ensures !HasKind(d, pairs, kind) ==> KindRows(d, pairs, kind) == []
    ensures |KindRows(d, pairs, kind)| > 0 ==> HasKind(d, pairs, kind)
  {
    if pairs != [] {
      NoFlagNoRows(d, pairs[..|pairs| - 1], kind);
    }
  }

  /** One diff file: its lines, or None when it does not exist. */
  type DiffFile = Option<seq<Line>>

  /** What one diff-bearing position does to the file of one kind: create
      it with its header if it does not exist, append the rows, then remove
      it if the kind was not flagged. */
  function KindStep(file: DiffFile, flagged: bool, rows: seq<Line>): DiffFile
  {
    if !flagged then None
    else Some((if file.Some? then file.value else [DiffHeader]) + rows)
  }

  /** What one diff-bearing position does to the file of `kind`. */
  function PositionStep(file: DiffFile, d: Position, samples: seq<string>, kind: Kind): DiffFile
    requires DiffBearing(d, samples) && AllSplit(samples)
  {
    PairsSplit(samples);
    KindStep(file, HasKind(d, Pairs(samples), kind), KindRows(d, Pairs(samples), kind))
  }

  /** The file of `kind` after the positions of `data`, starting from
      `file` (which exists when an earlier pass over the same region left
      it). */
  function DiffAfter(file: DiffFile, data: seq<Position>, samples: seq<string>, kind: Kind): DiffFile
    requires data != [] ==> AllSplit(samples)
  {
    if data == [] then file
    else
      var before := DiffAfter(file, data[..|data| - 1], samples, kind);
      var d := data[|data| - 1];
      if DiffBearing(d, samples) then PositionStep(before, d, samples, kind) else before
  }

  /** The last position of `data` that feeds the diff files, if any. */
  function LastDiffBearing(data: seq<Position>, samples: seq<string>): (r: Option<Position>)
    ensures r.Some? ==> r.value in data && DiffBearing(r.value, samples)
  {
    if data == [] then None
    else if DiffBearing(data[|data| - 1], samples) then Some(data[|data| - 1])
    else LastDiffBearing(data[..|data| - 1], samples)
  }

  /** After a region, a kind's file exists exactly when the last
      diff-bearing position flagged that kind (or, with no such position,
      when it existed before): rows that earlier positions wrote are gone
      if that last position found no pair of the kind. */
  lemma {:induction false} DiffFileExists(file: DiffFile, data: seq<Position>, samples: seq<string>, kind: Kind)
    requires data != [] ==> AllSplit(samples)
    ensures DiffAfter(file, data, samples, kind).Some? <==>
      match LastDiffBearing(data, samples)
      case None => file.Some?
      case Some(d) => (assert d in data; PairsSplit(samples); HasKind(d, Pairs(samples), kind))
  {
    if data != [] && !DiffBearing(data[|data| - 1], samples) {
      DiffFileExists(file, data[..|data| - 1], samples, kind);
    }
  }

  /** When a kind's file exists after a region, it starts with the header:
      it is never left holding rows without one. */
  lemma {:induction false} DiffFileHasHeader(file: DiffFile, data: seq<Position>, samples: seq<string>, kind: Kind)
    requires data != [] ==> AllSplit(samples)
    requires file.Some? ==> |file.value| > 0 && file.value[0] == DiffHeader
    ensures var after := DiffAfter(file, data, samples, kind);
      after.Some? ==> |after.value| > 0 && after.value[0] == DiffHeader
  {
    if data != [] {
      DiffFileHasHeader(file, data[..|data| - 1], samples, kind);
    }
  }
}
