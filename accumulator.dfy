/** The `meth_ratio` accumulator of `get_region`: for each of the 11 bins
    0.0, 0.1, ..., 1.0 (kept here as the bin index 0..10) a count per
    sample, and per sample the list of rounded ratios in position order
    (kept as bin indexes: the ratio is index / 10). */
module Accumulator {

  /** How many times `b` occurs in `xs`. */
  function Occurrences(xs: seq<nat>, b: nat): nat
  {
    if xs == [] then 0 else Occurrences(xs[..|xs| - 1], b) + (if xs[|xs| - 1] == b then 1 else 0)
  }

  /** Appending `x` adds one occurrence of `x` and none of anything else. */
  lemma OccurrencesAppend(xs: seq<nat>, x: nat, b: nat)
    ensures Occurrences(xs + [x], b) == Occurrences(xs, b) + (if x == b then 1 else 0)
  {
    assert (xs + [x])[..|xs + [x]| - 1] == xs;
  }

  /** The occurrences of `b` are the number of positions holding `b`. */
  lemma {:induction false} OccurrencesCount(xs: seq<nat>, b: nat)
    ensures Occurrences(xs, b) == |set i | 0 <= i < |xs| && xs[i] == b|
  {
    if xs != [] {
      var init := xs[..|xs| - 1];
      OccurrencesCount(init, b);
      var before := set i | 0 <= i < |init| && init[i] == b;
      var now := set i | 0 <= i < |xs| && xs[i] == b;
      if xs[|xs| - 1] == b {
        assert now == before + {|xs| - 1};
      } else {
        assert now == before;
      }
    }
  }

  /** Occurrences of the bins 0 .. n-1, added up. */
  function BinTotal(xs: seq<nat>, n: nat): nat
  {
    if n == 0 then 0 else BinTotal(xs, n - 1) + Occurrences(xs, n - 1)
  }

  /** Proof helper with no counterpart in the client: the empty list has
      no occurrence in any bin. */
  lemma {:induction false} BinTotalNil(n: nat)
    ensures BinTotal([], n) == 0
  {
    if n > 0 {
      BinTotalNil(n - 1);
    }
  }

  lemma {:induction false} BinTotalAppend(xs: seq<nat>, x: nat, n: nat)
    ensures BinTotal(xs + [x], n) == BinTotal(xs, n) + (if x < n then 1 else 0)
  {
    if n > 0 {
      BinTotalAppend(xs, x, n - 1);
      OccurrencesAppend(xs, x, n - 1);
    }
  }

  /** When every value is a bin index, the eleven bin counts add up to the
      length of the list: for each sample the histogram column sums to the
      number of positions. */
  lemma {:induction false} HistogramTotal(xs: seq<nat>)
    requires forall i :: 0 <= i < |xs| ==> xs[i] <= 10
    ensures BinTotal(xs, 11) == |xs|
  {
    if xs == [] {
      BinTotalNil(11);
    } else {
      var init := xs[..|xs| - 1];
      assert xs == init + [xs[|xs| - 1]];
      HistogramTotal(init);
      BinTotalAppend(init, xs[|xs| - 1], 11);
    }
  }

  /** Eleven bins, each with one count per sample; one list per sample
      holding bin indexes; every count is the number of times its bin
      occurs in the sample's list. */
  ghost predicate Consistent(samples: seq<string>, counts: map<nat, map<string, nat>>, ratios: map<string, seq<nat>>)
  {
    && (forall b: nat :: b in counts <==> b <= 10)
    && (forall b, s :: b in counts ==> (s in counts[b] <==> s in samples))
    && (forall s :: s in ratios <==> s in samples)
    && (forall s :: s in ratios ==> forall i :: 0 <= i < |ratios[s]| ==> ratios[s][i] <= 10)
    && (forall b, s :: b in counts && s in counts[b] && s in ratios ==> counts[b][s] == Occurrences(ratios[s], b))
  }

  /** What consistency says of one bin and one sample. */
  lemma ConsistentCount(samples: seq<string>, counts: map<nat, map<string, nat>>, ratios: map<string, seq<nat>>,
                        b: nat, s: string)
    requires Consistent(samples, counts, ratios) && b <= 10 && s in samples
    ensures b in counts && s in counts[b] && s in ratios && counts[b][s] == Occurrences(ratios[s], b)
  {
  }

  /** Counting a bin and appending it to the sample's list together keep
      the counts and the lists consistent. */
  lemma RecordKeepsConsistent(samples: seq<string>, counts: map<nat, map<string, nat>>, ratios: map<string, seq<nat>>,
                              sample: string, bin: nat)
    requires Consistent(samples, counts, ratios) && sample in samples && bin <= 10
    ensures Consistent(samples,
                       counts[bin := counts[bin][sample := counts[bin][sample] + 1]],
                       ratios[sample := ratios[sample] + [bin]])
  {
    var column := counts[bin][sample := counts[bin][sample] + 1];
    var counts' := counts[bin := column];
    var newList := ratios[sample] + [bin];
    var ratios' := ratios[sample := newList];
    forall b, s | b in counts' && s in counts'[b] && s in ratios'
      ensures counts'[b][s] == Occurrences(ratios'[s], b)
    {
      if s == sample && b == bin {
        OccurrencesAppend(ratios[sample], bin, b);
        assert counts'[b][s] == counts[b][s] + 1;
      } else if s == sample {
        OccurrencesAppend(ratios[sample], bin, b);
        assert counts'[b][s] == counts[b][s];
      } else {
        assert counts'[b][s] == counts[b][s] && ratios'[s] == ratios[s];
      }
    }
  }

  class MethRatio {
    /** The requested samples; the keys of every bin and of the lists. */
    const samples: seq<string>
    /** meth_ratio[n/10][sample] for n in 0..10. */
    var counts: map<nat, map<string, nat>>
    /** meth_ratio[sample]. */
    var ratios: map<string, seq<nat>>

    ghost predicate Valid()
      reads this
    {
      Consistent(samples, counts, ratios)
    }

    /** Lines 178-184: every bin count 0, every list empty. */
    constructor (samples: seq<string>)
      ensures Valid()
      ensures this.samples == samples
      ensures forall s :: s in samples ==> ratios[s] == []
    {
      this.samples := samples;
      var zeros := map s | s in samples :: 0;
      var bins: map<nat, map<string, nat>> := map[];
      var n := 0;
      while n < 11
        invariant n <= 11
        invariant forall b: nat :: b in bins <==> b < n
        invariant forall b :: b in bins ==> bins[b] == zeros
      {
        bins := bins[n := zeros];
        n := n + 1;
      }
      counts := bins;
      ratios := map s | s in samples :: [];
    }

    /** Lines 241-242: `meth_ratio[bin][sample] += 1`, then
        `meth_ratio[sample].append(bin)`. A bin above 1.0 is no key: the
        KeyError leaves everything as it was and `ok` is false. */
    method Record(sample: string, bin: nat) returns (ok: bool)
      requires Valid() && sample in samples
      modifies this
      ensures Valid()
      ensures ok == (bin <= 10)
      ensures ok ==> ratios == old(ratios)[sample := old(ratios)[sample] + [bin]]
      ensures ok ==> counts == old(counts)[bin := old(counts)[bin][sample := old(counts)[bin][sample] + 1]]
      ensures !ok ==> ratios == old(ratios) && counts == old(counts)
    {
      ok := bin <= 10;
      if ok {
        var counts' := counts[bin := counts[bin][sample := counts[bin][sample] + 1]];
        var ratios' := ratios[sample := ratios[sample] + [bin]];
        RecordKeepsConsistent(samples, counts, ratios, sample, bin);
        counts, ratios := counts', ratios';
      }
    }
  }
}
