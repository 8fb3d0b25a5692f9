/** The statistics helpers of the client: the linear-interpolation
    percentile (applied to a list in the order it is given, without sorting)
    and the arithmetic mean, both over exact reals. */
module Stats {
  import opened Common

  function Min(a: real, b: real): real { if a <= b then a else b }
  function Max(a: real, b: real): real { if a <= b then b else a }

  /** math.ceil of a real. */
  function Ceil(k: real): (c: int)
    ensures c as real - 1.0 < k <= c as real
    ensures (c == k.Floor) == (k.Floor as real == k)
  {
    if k.Floor as real == k then k.Floor else k.Floor + 1
  }

  /** percentile(N, percent): k = (len(N)-1)*percent; when k is whole the
      element at k, otherwise the two neighbours weighted by distance. */
  function Percentile(xs: seq<real>, p: real): (r: Option<real>)
    requires 0.0 <= p <= 1.0
    ensures r.None? <==> |xs| == 0
  {
    if |xs| == 0 then None
    else
      var k := (|xs| - 1) as real * p;
      var f, c := k.Floor, Ceil(k);
      PercentileIndexes(|xs|, p);
      if f == c then Some(xs[f]) else Some(xs[f] * (c as real - k) + xs[c] * (k - f as real))
  }

  /** floor(k) and ceil(k) are indexes of the list. */
  lemma PercentileIndexes(n: nat, p: real)
    requires n > 0 && 0.0 <= p <= 1.0
    ensures var k := (n - 1) as real * p; 0 <= k.Floor <= Ceil(k) < n
  {
    var k := (n - 1) as real * p;
    MulBounds((n - 1) as real, p);
    assert 0.0 <= k <= (n - 1) as real;
    assert Ceil(k) as real - 1.0 < (n - 1) as real;
  }

  /** The result of a non-empty list: the element at k when k is whole,
      otherwise the two neighbours floor(k) and floor(k) + 1 weighted by
      distance, so that it lies between them. */
  lemma PercentileSpec(xs: seq<real>, p: real)
    requires 0.0 <= p <= 1.0 && |xs| > 0
    ensures var r := Percentile(xs, p).value;
      var k := (|xs| - 1) as real * p;
      var f, c := k.Floor, Ceil(k);
      0 <= f <= c < |xs| &&
      (f == c ==> r == xs[f]) &&
      (f != c ==> c == f + 1 && r == xs[f] * (c as real - k) + xs[c] * (k - f as real)) &&
      Min(xs[f], xs[c]) <= r <= Max(xs[f], xs[c])
  {
    var k := (|xs| - 1) as real * p;
    var f, c := k.Floor, Ceil(k);
    PercentileIndexes(|xs|, p);
    if f != c {
      InterpolationBetween(xs[f], xs[c], c as real - k, k - f as real);
    }
  }

  lemma MulBounds(n: real, p: real)
    requires 0.0 <= n && 0.0 <= p <= 1.0
    ensures 0.0 <= n * p <= n
  {}

  /** Weights that are non-negative and sum to one keep the result between
      the two interpolated values. */
  lemma InterpolationBetween(a: real, b: real, wa: real, wb: real)
    requires 0.0 <= wa && 0.0 <= wb && wa + wb == 1.0
    ensures Min(a, b) <= a * wa + b * wb <= Max(a, b)
  {
    if a <= b {
      assert a * wa + b * wb == a + (b - a) * wb;
      assert 0.0 <= (b - a) * wb <= b - a by { MulBounds(b - a, wb); }
    } else {
      assert a * wa + b * wb == b + (a - b) * wa;
      assert 0.0 <= (a - b) * wa <= a - b by { MulBounds(a - b, wa); }
    }
  }

  /** The two ends of the range are the first and the last element of the
      list as given. */
  lemma PercentileEnds(xs: seq<real>)
    requires |xs| > 0
    ensures Percentile(xs, 0.0) == Some(xs[0])
    ensures Percentile(xs, 1.0) == Some(xs[|xs| - 1])
  {
    var n := (|xs| - 1) as real;
    PercentileIndexes(|xs|, 0.0);
    PercentileIndexes(|xs|, 1.0);
    assert n * 0.0 == 0.0 && (0.0).Floor == 0;
    assert n * 1.0 == n && n.Floor == |xs| - 1;
  }

  /** At p = 0.5 the result is the middle element of the list as given, or
      the average of the two middle elements: the median of a list that is
      already sorted, and not in general otherwise. */
  lemma PercentileHalf(xs: seq<real>)
    requires |xs| > 0
    ensures |xs| % 2 == 1 ==> Percentile(xs, 0.5) == Some(xs[|xs| / 2])
    ensures |xs| % 2 == 0 ==> Percentile(xs, 0.5) == Some((xs[|xs| / 2 - 1] + xs[|xs| / 2]) / 2.0)
  {
    var n := |xs|;
    var k := (n - 1) as real * 0.5;
    PercentileSpec(xs, 0.5);
    var r := Percentile(xs, 0.5).value;
    if n % 2 == 1 {
      MidpointOdd(n);
    } else {
      MidpointEven(n);
      var m := n / 2 - 1;
      var a, b := xs[m], xs[m + 1];
      assert r == a * ((m + 1) as real - k) + b * (k - m as real);
      assert r == a * 0.5 + b * 0.5;
    }
  }

  lemma MidpointOdd(n: nat)
    requires n % 2 == 1
    ensures var k := (n - 1) as real * 0.5; k == (n / 2) as real && k.Floor == n / 2 && Ceil(k) == n / 2
  {
    var m := n / 2;
    assert (n - 1) as real == 2.0 * m as real;
  }

  lemma MidpointEven(n: nat)
    requires n > 0 && n % 2 == 0
    ensures var k := (n - 1) as real * 0.5;
      k.Floor == n / 2 - 1 && Ceil(k) == n / 2 &&
      (n / 2) as real - k == 0.5 && k - (n / 2 - 1) as real == 0.5
  {
    var m := n / 2 - 1;
    assert (n - 1) as real == 2.0 * m as real + 1.0;
  }

  /** The percentile does not sort: the same two values in the opposite
      order give the opposite end of the interpolation, so on a list in
      position order p10 can exceed p90. */
  lemma PercentileIsPositional()
    ensures Percentile([0.0, 1.0], 0.1) == Some(0.1)
    ensures Percentile([1.0, 0.0], 0.1) == Some(0.9)
    ensures Percentile([1.0, 0.0], 0.9) == Some(0.1)
  {
    var k := 1.0 * 0.1;
    assert k.Floor == 0;
    var k9 := 1.0 * 0.9;
    assert k9.Floor == 0;
  }

  function Sum(xs: seq<real>): real
  {
    if xs == [] then 0.0 else Sum(xs[..|xs| - 1]) + xs[|xs| - 1]
  }

  /** statistics.mean over exact reals; the client calls it only on a
      non-empty list. */
  function Mean(xs: seq<real>): (r: real)
    requires |xs| > 0
    ensures (forall i :: 0 <= i < |xs| ==> 0.0 <= xs[i] <= 1.0) ==> 0.0 <= r <= 1.0
  {
    SumBounds(xs);
    Sum(xs) / |xs| as real
  }

  lemma {:induction false} SumBounds(xs: seq<real>)
    ensures (forall i :: 0 <= i < |xs| ==> 0.0 <= xs[i] <= 1.0) ==> 0.0 <= Sum(xs) <= |xs| as real
  {
    if xs != [] {
      var init := xs[..|xs| - 1];
      assert forall i :: 0 <= i < |init| ==> init[i] == xs[i];
      SumBounds(init);
    }
  }
}
