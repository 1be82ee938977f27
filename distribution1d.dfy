// Piecewise-constant 1-D distribution on [0, 1]: n bins of width 1/n, a
// prefix-sum CDF normalised by the integral (or a uniform ramp when the
// integral is 0), and inverse-CDF sampling with std::upper_bound.
module Distributions1D {
  import opened Types

  datatype Distribution1D = Distribution1D(func: seq<real>, cdf: seq<real>, funcInt: real)

  /** The unnormalised CDF: the integral of the first i bins, each of width 1/n. */
  function RawCdf(f: seq<real>, i: nat): real
    requires i <= |f|
  {
    if i == 0 then 0.0 else RawCdf(f, i - 1) + f[i - 1] / (|f| as real)
  }

  /** The integral of the piecewise-constant function over [0, 1]. */
  function FuncInt(f: seq<real>): real
  {
    RawCdf(f, |f|)
  }

  /** Entry i of the normalised CDF: 0 at the start, the uniform ramp i/n for a zero integral, else RawCdf / integral. */
  function CdfEntry(f: seq<real>, i: nat): real
    requires i <= |f|
  {
    if i == 0 then 0.0
    else if FuncInt(f) == 0.0 then (i as real) / (|f| as real)
    else RawCdf(f, i) / FuncInt(f)
  }

  /** The distribution the constructor builds from f. */
  function MakeDistribution1D(f: seq<real>): (d: Distribution1D)
    ensures d.func == f && |d.cdf| == |f| + 1 && d.funcInt == FuncInt(f)
    ensures forall i :: 0 <= i <= |f| ==> d.cdf[i] == CdfEntry(f, i)
  {
    Distribution1D(f, seq(|f| + 1, i requires 0 <= i <= |f| => CdfEntry(f, i)), FuncInt(f))
  }

  /**
   * The constructor: the prefix-sum loop, then the normalising loop (uniform
   * ramp for a zero integral, division by the integral otherwise).
   */
  method Build(f: seq<real>) returns (d: Distribution1D)
    ensures d == MakeDistribution1D(f)
  {
    var n := |f|;
    var cdf := new real[n + 1];
    PrefixSums(f, cdf);
    var funcInt := cdf[n];
    NormaliseCdf(f, cdf, funcInt);
    d := Distribution1D(f, cdf[..], funcInt);
    assert forall j :: 0 <= j <= n ==> d.cdf[j] == CdfEntry(f, j);
  }

  /** The first loop of the constructor: cdf[0] = 0, cdf[i+1] = cdf[i] + f[i] / n. */
  method PrefixSums(f: seq<real>, cdf: array<real>)
    requires cdf.Length == |f| + 1
    modifies cdf
    ensures forall j :: 0 <= j <= |f| ==> cdf[j] == RawCdf(f, j)
  {
    var n := |f|;
    cdf[0] := 0.0;
    var i := 0;
    while i < n
      invariant 0 <= i <= n
      invariant forall j :: 0 <= j <= i ==> cdf[j] == RawCdf(f, j)
    {
      cdf[i + 1] := cdf[i] + f[i] / (n as real);
      i := i + 1;
    }
  }

  /** The second loop of the constructor: the uniform ramp for a zero integral, else division by it. */
  method NormaliseCdf(f: seq<real>, cdf: array<real>, funcInt: real)
    requires cdf.Length == |f| + 1 && funcInt == FuncInt(f)
    requires forall j :: 0 <= j <= |f| ==> cdf[j] == RawCdf(f, j)
    modifies cdf
    ensures forall j :: 0 <= j <= |f| ==> cdf[j] == CdfEntry(f, j)
  {
    var n := |f|;
    var i := 1;
    if funcInt == 0.0 {
      while i < n + 1
        invariant 1 <= i <= n + 1
        invariant cdf[0] == 0.0
        invariant forall j :: 1 <= j < i ==> cdf[j] == CdfEntry(f, j)
      {
        cdf[i] := (i as real) / (n as real);
        i := i + 1;
      }
    } else {
      while i < n + 1
        invariant 1 <= i <= n + 1
        invariant cdf[0] == 0.0
        invariant forall j :: 1 <= j < i ==> cdf[j] == CdfEntry(f, j)
        invariant forall j :: i <= j <= n ==> cdf[j] == RawCdf(f, j)
      {
        cdf[i] := cdf[i] / funcInt;
        i := i + 1;
      }
    }
  }

  /** count(): the number of bins. */
  function Count(d: Distribution1D): (c: nat)
    ensures c == |d.func|
  {
    |d.func|
  }

  predicate NonNegative(f: seq<real>)
  {
    forall i :: 0 <= i < |f| ==> f[i] >= 0.0
  }

  predicate Sorted(s: seq<real>)
  {
    forall i, j :: 0 <= i <= j < |s| ==> s[i] <= s[j]
  }

  /** For a non-negative function the running integral never decreases. */
  lemma {:induction false} RawCdfMonotone(f: seq<real>, i: nat, j: nat)
    requires NonNegative(f) && i <= j <= |f|
    ensures RawCdf(f, i) <= RawCdf(f, j)
    decreases j
  {
    if i < j {
      RawCdfMonotone(f, i, j - 1);
      assert f[j - 1] / (|f| as real) >= 0.0;
    }
  }

  /** A non-negative function whose integral is 0 is 0 in every bin. */
  lemma ZeroIntegral(f: seq<real>, k: int)
    requires NonNegative(f) && FuncInt(f) == 0.0 && 0 <= k < |f|
    ensures f[k] == 0.0
  {
    RawCdfMonotone(f, 0, k);
    RawCdfMonotone(f, k + 1, |f|);
    assert f[k] / (|f| as real) == 0.0;
  }

  /**
   * The normalised CDF starts at 0, ends at 1 for n >= 1, and for a
   * non-negative function is non-decreasing with every entry in [0, 1].
   */
  lemma CdfNormalised(f: seq<real>)
    ensures MakeDistribution1D(f).cdf[0] == 0.0
    ensures |f| >= 1 ==> MakeDistribution1D(f).cdf[|f|] == 1.0
    ensures NonNegative(f) ==> Sorted(MakeDistribution1D(f).cdf)
    ensures NonNegative(f) ==> forall i :: 0 <= i <= |f| ==> 0.0 <= MakeDistribution1D(f).cdf[i] <= 1.0
  {
    var d := MakeDistribution1D(f);
    if |f| >= 1 {
      CdfEnd(f);
    }
    if NonNegative(f) {
      RawCdfMonotone(f, 0, |f|);
      forall i, j | 0 <= i <= j < |d.cdf|
        ensures d.cdf[i] <= d.cdf[j]
      {
        CdfEntryMonotone(f, i, j);
      }
      forall i | 0 <= i <= |f|
        ensures 0.0 <= d.cdf[i] <= 1.0
      {
        CdfEntryMonotone(f, 0, i);
        if |f| >= 1 {
          CdfEntryMonotone(f, i, |f|);
          CdfEnd(f);
        }
      }
    }
  }

  lemma CdfEntryMonotone(f: seq<real>, i: nat, j: nat)
    requires NonNegative(f) && i <= j <= |f|
    ensures CdfEntry(f, i) <= CdfEntry(f, j)
  {
    var fi := FuncInt(f);
    RawCdfMonotone(f, 0, |f|);
    RawCdfMonotone(f, i, j);
    RawCdfMonotone(f, 0, i);
    if fi != 0.0 && 0 < i {
      DivMonotone(RawCdf(f, i), RawCdf(f, j), fi);
    } else if fi != 0.0 && 0 < j {
      RawCdfMonotone(f, 0, j);
      DivMonotone(0.0, RawCdf(f, j), fi);
    } else if 0 < i {
      DivMonotone(i as real, j as real, |f| as real);
    } else if 0 < j {
      DivMonotone(0.0, j as real, |f| as real);
    }
  }

  lemma CdfEnd(f: seq<real>)
    requires |f| >= 1
    ensures CdfEntry(f, |f|) == 1.0
  {
    if FuncInt(f) == 0.0 {
      assert CdfEntry(f, |f|) == (|f| as real) / (|f| as real);
    } else {
      assert CdfEntry(f, |f|) == RawCdf(f, |f|) / FuncInt(f) == FuncInt(f) / FuncInt(f);
    }
  }

  lemma DivMonotone(a: real, b: real, c: real)
    requires a <= b && c > 0.0
    ensures a / c <= b / c
  {
    assert b / c - a / c == (b - a) / c;
  }

  /**
   * std::upper_bound over s[first .. first + len) as the standard library
   * implements it: halve the range, keep the left half when u < s[middle].
   */
  function UpperBound(s: seq<real>, first: nat, len: nat, u: real): (r: nat)
    requires first + len <= |s|
    ensures first <= r <= first + len
    decreases len
  {
    if len == 0 then first
    else
      var half := len / 2;
      var middle := first + half;
      if u < s[middle] then UpperBound(s, first, half, u)
      else UpperBound(s, middle + 1, len - half - 1, u)
  }

  /** On a sorted range upper_bound is the first position holding a value above u. */
  lemma {:induction false} UpperBoundSplits(s: seq<real>, first: nat, len: nat, u: real)
    requires Sorted(s) && first + len <= |s|
    ensures var r := UpperBound(s, first, len, u);
      (forall i :: first <= i < r ==> s[i] <= u) &&
      (forall i :: r <= i < first + len ==> u < s[i])
    decreases len
  {
    if len > 0 {
      var half := len / 2;
      var middle := first + half;
      if u < s[middle] {
        var r := UpperBound(s, first, half, u);
        UpperBoundLeft(s, first, len, u);
        UpperBoundSplits(s, first, half, u);
        forall i | r <= i < first + len
          ensures u < s[i]
        {
          if middle < i {
            assert s[middle] <= s[i];
          }
        }
      } else {
        var lo: nat, rest: nat := middle + 1, len - half - 1;
        assert lo + rest == first + len;
        var r := UpperBound(s, lo, rest, u);
        UpperBoundRight(s, first, len, u, lo, rest);
        UpperBoundSplits(s, lo, rest, u);
        forall i | first <= i < r
          ensures s[i] <= u
        {
          if i < middle {
            assert s[i] <= s[middle];
          }
        }
      }
    }
  }

  /** The halving step of upper_bound when u lies below the middle value. */
  lemma UpperBoundLeft(s: seq<real>, first: nat, len: nat, u: real)
    requires first + len <= |s| && len > 0 && u < s[first + len / 2]
    ensures UpperBound(s, first, len, u) == UpperBound(s, first, len / 2, u)
  {
  }

  /** The halving step of upper_bound when u is not below the middle value. */
  lemma UpperBoundRight(s: seq<real>, first: nat, len: nat, u: real, lo: nat, rest: nat)
    requires first + len <= |s| && len > 0 && !(u < s[first + len / 2])
    requires lo == first + len / 2 + 1 && rest == len - len / 2 - 1
    ensures UpperBound(s, first, len, u) == UpperBound(s, lo, rest, u)
  {
  }

  /** u is kept strictly below 1 before the search. */
  const MaxSampleU: real := 0.99999994

  /** The sampled coordinate x in [0, 1], its density, and the bin it fell in. */
  datatype Sample1D = Sample1D(x: real, pdf: real, off: int)

  /** The shape every constructed distribution with at least one bin has. */
  predicate Shaped(d: Distribution1D)
  {
    |d.func| >= 1 && |d.cdf| == |d.func| + 1
  }

  /**
   * sampleContinuous: find the bin by upper_bound on the CDF, clamp it into
   * [0, n-1], take the density from the bin (1 for a zero integral) and the
   * position inside the bin from the CDF step (0 for an empty step).
   */
  function SampleContinuous(d: Distribution1D, u: real): (s: Sample1D)
    requires Shaped(d)
    ensures 0 <= s.off < |d.func|
    ensures d.funcInt > 0.0 ==> s.pdf == d.func[s.off] / d.funcInt
    ensures d.funcInt <= 0.0 ==> s.pdf == 1.0
  {
    var n := |d.func|;
    var uc := Min(u, MaxSampleU);
    var ub := UpperBound(d.cdf, 0, |d.cdf|, uc);
    var off := ClampI(ub - 1, 0, n - 1);
    var pdf := if d.funcInt > 0.0 then d.func[off] / d.funcInt else 1.0;
    Sample1D(BinPosition(off, n, d.cdf[off], d.cdf[off + 1], uc), pdf, off)
  }

  /**
   * The continuous coordinate for u in bin off of n whose CDF step is
   * [lo, hi): the bin start plus the relative offset of u in the step (0
   * when the step is empty), scaled back to [0, 1].
   */
  function BinPosition(off: int, n: int, lo: real, hi: real, u: real): real
    requires n > 0
  {
    var du := u - lo;
    var denom := hi - lo;
    var duInBin := if denom > 0.0 then du / denom else 0.0;
    (off as real + duInBin) / (n as real)
  }

  /** Inside a non-empty step the position lies in the bin's sub-interval and truncation recovers the bin. */
  lemma BinPositionInBin(off: int, n: int, lo: real, hi: real, u: real)
    requires 0 <= off < n && lo <= u < hi
    ensures var x := BinPosition(off, n, lo, hi, u);
      (off as real) / (n as real) <= x < (off as real + 1.0) / (n as real) &&
      0.0 <= x < 1.0 && (u > lo ==> x > 0.0)
  {
    var denom := hi - lo;
    var du := (u - lo) / denom;
    var x := (off as real + du) / (n as real);
    assert BinPosition(off, n, lo, hi, u) == x;
    InBin(off as real, du, n as real, u - lo, denom, x);
  }

  /**
   * For a non-negative function and u >= 0 the search lands in the bin
   * whose CDF step contains the clamped u, the result lies in that bin's
   * sub-interval [off/n, (off+1)/n) (so scaling by n and truncating gives
   * the bin back), and with a positive integral the bin has positive
   * weight and the density is positive.
   */
  lemma SampleInBin(f: seq<real>, u: real)
    requires NonNegative(f) && |f| >= 1 && u >= 0.0
    ensures var d := MakeDistribution1D(f);
      var s := SampleContinuous(d, u);
      var n := |f| as real;
      d.cdf[s.off] <= Min(u, MaxSampleU) < d.cdf[s.off + 1] &&
      (s.off as real) / n <= s.x < (s.off as real + 1.0) / n &&
      0.0 <= s.x < 1.0 &&
      (u > 0.0 ==> s.x > 0.0) &&
      (d.funcInt > 0.0 ==> f[s.off] > 0.0 && s.pdf > 0.0) &&
      (d.funcInt <= 0.0 ==> s.pdf == 1.0)
  {
    var d := MakeDistribution1D(f);
    CdfNormalised(f);
    SampleGeometry(d, u);
    var s := SampleContinuous(d, u);
    if d.funcInt > 0.0 {
      PositiveStep(f, s.off);
      assert d.func[s.off] == f[s.off];
      assert s.pdf == f[s.off] / d.funcInt;
    }
  }

  /**
   * Where the sample lands, for any sorted CDF running from 0 to 1: in the
   * bin whose step contains the clamped u, at a position inside that bin.
   */
  lemma SampleGeometry(d: Distribution1D, u: real)
    requires Shaped(d) && Sorted(d.cdf) && d.cdf[0] == 0.0 && d.cdf[|d.func|] == 1.0 && u >= 0.0
    ensures d.cdf[SampleContinuous(d, u).off] <= Min(u, MaxSampleU) < d.cdf[SampleContinuous(d, u).off + 1]
    ensures var s := SampleContinuous(d, u);
      (s.off as real) / (|d.func| as real) <= s.x < (s.off as real + 1.0) / (|d.func| as real)
    ensures 0.0 <= SampleContinuous(d, u).x < 1.0
    ensures u > 0.0 ==> SampleContinuous(d, u).x > 0.0
  {
    var uc := Min(u, MaxSampleU);
    SearchLandsInBin(d, uc);
    var off := UpperBound(d.cdf, 0, |d.cdf|, uc) - 1;
    SampleAt(d, u, off);
    var s := SampleContinuous(d, u);
    assert s.off == off;
    if u > 0.0 {
      if off > 0 {
        StrictlyPositiveRatio(off as real, |d.func| as real);
      } else {
        assert uc > d.cdf[off];
      }
    }
  }

  lemma StrictlyPositiveRatio(a: real, b: real)
    requires a > 0.0 && b > 0.0
    ensures a / b > 0.0
  {
  }

  /** The sample's coordinate once the search has found the step containing the clamped u. */
  lemma SampleAt(d: Distribution1D, u: real, off: int)
    requires Shaped(d) && 0 <= off < |d.func|
    requires off == ClampI(UpperBound(d.cdf, 0, |d.cdf|, Min(u, MaxSampleU)) - 1, 0, |d.func| - 1)
    requires d.cdf[off] <= Min(u, MaxSampleU) < d.cdf[off + 1]
    ensures SampleContinuous(d, u).off == off
    ensures SampleContinuous(d, u).x == BinPosition(off, |d.func|, d.cdf[off], d.cdf[off + 1], Min(u, MaxSampleU))
    ensures (off as real) / (|d.func| as real) <= SampleContinuous(d, u).x
    ensures SampleContinuous(d, u).x < (off as real + 1.0) / (|d.func| as real)
    ensures 0.0 <= SampleContinuous(d, u).x < 1.0
    ensures Min(u, MaxSampleU) > d.cdf[off] ==> SampleContinuous(d, u).x > 0.0
  {
    var x := BinPosition(off, |d.func|, d.cdf[off], d.cdf[off + 1], Min(u, MaxSampleU));
    assert SampleContinuous(d, u).off == off;
    assert SampleContinuous(d, u).x == x;
    BinPositionInBin(off, |d.func|, d.cdf[off], d.cdf[off + 1], Min(u, MaxSampleU));
  }

  /** On a sorted CDF from 0 to 1, upper_bound of a value in [0, 1) lands on a step containing it. */
  lemma SearchLandsInBin(d: Distribution1D, uc: real)
    requires Shaped(d) && Sorted(d.cdf) && d.cdf[0] <= uc < d.cdf[|d.func|]
    ensures var ub := UpperBound(d.cdf, 0, |d.cdf|, uc);
      1 <= ub <= |d.func| && d.cdf[ub - 1] <= uc < d.cdf[ub] &&
      ClampI(ub - 1, 0, |d.func| - 1) == ub - 1
  {
    UpperBoundSplits(d.cdf, 0, |d.cdf|, uc);
  }

  /** A coordinate in bin off of n, scaled by n and truncated, gives the bin back. */
  lemma TruncScaledBin(x: real, n: int, off: int)
    requires 0 <= off < n && (off as real) / (n as real) <= x < (off as real + 1.0) / (n as real)
    ensures Trunc(x * (n as real)) == off
  {
    var nr, k := n as real, off as real;
    var lo, hi := k / nr, (k + 1.0) / nr;
    assert lo * nr == k;
    assert hi * nr == k + 1.0;
    Sandwich(lo, hi, x, nr, k);
    TruncBetween(x * nr, off);
  }

  /** Scaling lo <= x < hi by a positive nr, where lo and hi scale to k and k + 1. */
  lemma Sandwich(lo: real, hi: real, x: real, nr: real, k: real)
    requires nr > 0.0 && lo <= x < hi && lo * nr == k && hi * nr == k + 1.0
    ensures k <= x * nr < k + 1.0
  {
    MulMonotoneReal(lo, x, nr);
    MulStrictReal(x, hi, nr);
  }

  lemma TruncBetween(y: real, k: int)
    requires 0 <= k && k as real <= y < k as real + 1.0
    ensures Trunc(y) == k
  {
  }

  lemma MulStrictReal(a: real, b: real, c: real)
    requires a < b && c > 0.0
    ensures a * c < b * c
  {
    assert b * c - a * c == (b - a) * c;
  }

  /** Arithmetic of the position inside a bin. */
  lemma InBin(off: real, du: real, n: real, num: real, denom: real, x: real)
    requires 0.0 <= off && off + 1.0 <= n && 0.0 <= num < denom && du == num / denom
    requires x == (off + du) / n
    ensures 0.0 <= du < 1.0
    ensures off / n <= x < (off + 1.0) / n && 0.0 <= x < 1.0
    ensures x * n == off + du
    ensures num > 0.0 ==> x > 0.0
  {
    assert du * denom == num;
    MulMonotoneReal(1.0, du, denom);
    DivMonotone(off, off + du, n);
    assert (off + 1.0) / n - x == (1.0 - du) / n;
    DivMonotone(off + 1.0, n, n);
    if num > 0.0 {
      assert du > 0.0;
      assert x > 0.0;
    }
  }

  lemma MulMonotoneReal(a: real, b: real, c: real)
    requires c > 0.0
    ensures a <= b ==> a * c <= b * c
  {
    if a <= b {
      assert b * c - a * c == (b - a) * c;
    }
  }

  /** With a positive integral, a bin whose normalised CDF step is positive has positive weight. */
  lemma PositiveStep(f: seq<real>, k: int)
    requires |f| >= 1 && 0 <= k < |f| && FuncInt(f) > 0.0
    requires CdfEntry(f, k) < CdfEntry(f, k + 1)
    ensures f[k] > 0.0
  {
    var fi := FuncInt(f);
    var n := |f| as real;
    var a := if k == 0 then 0.0 else RawCdf(f, k);
    assert RawCdf(f, 0) == 0.0;
    assert a == RawCdf(f, k);
    assert CdfEntry(f, k) == a / fi;
    assert CdfEntry(f, k + 1) == RawCdf(f, k + 1) / fi;
    assert RawCdf(f, k + 1) == a + f[k] / n;
    assert RawCdf(f, k + 1) / fi - a / fi == (f[k] / n) / fi;
    QuotientSign(f[k] / n, fi);
    QuotientSign(f[k], n);
  }

  /** Dividing by a positive number keeps the sign. */
  lemma QuotientSign(a: real, c: real)
    requires c > 0.0
    ensures a / c > 0.0 ==> a > 0.0
  {
    if a <= 0.0 {
      assert a / c == -((-a) / c);
    }
  }
}
