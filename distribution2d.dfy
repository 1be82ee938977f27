// Piecewise-constant 2-D distribution over [0, 1]^2, built from a
// row-major width x height grid: one conditional 1-D distribution per row
// and a marginal over the rows' integrals.  Sampling picks the row from the
// marginal and then the column inside that row.
module Distributions2D {
  import opened Types
  import opened Distributions1D

  datatype Distribution2D = Distribution2D(conditional: seq<Distribution1D>, marginal: Distribution1D)

  lemma RowInside(w: nat, h: nat, v: nat)
    requires v < h
    ensures v * w + w <= w * h
  {
    assert (h - v - 1) * w >= 0 by {
      assert h - v - 1 >= 0;
    }
    assert w * h - (v * w + w) == (h - v - 1) * w;
  }

  /** Row v of the grid: data[v*w .. v*w + w). */
  function Row(data: seq<real>, w: nat, h: nat, v: nat): (row: seq<real>)
    requires |data| == w * h && v < h
    ensures |row| == w
  {
    RowInside(w, h, v);
    data[v * w .. v * w + w]
  }

  /** The integral of every row, in row order. */
  function RowIntegrals(data: seq<real>, w: nat, h: nat): (m: seq<real>)
    requires |data| == w * h
    ensures |m| == h
  {
    seq(h, v requires 0 <= v < h => FuncInt(Row(data, w, h, v)))
  }

  /** The distribution the constructor builds: one conditional per row, and the marginal over their integrals. */
  function MakeDistribution2D(data: seq<real>, w: nat, h: nat): (d: Distribution2D)
    requires |data| == w * h
    ensures |d.conditional| == h
    ensures forall v :: 0 <= v < h ==> d.conditional[v] == MakeDistribution1D(Row(data, w, h, v))
    ensures d.marginal == MakeDistribution1D(RowIntegrals(data, w, h))
  {
    Distribution2D(seq(h, v requires 0 <= v < h => MakeDistribution1D(Row(data, w, h, v))),
                   MakeDistribution1D(RowIntegrals(data, w, h)))
  }

  /**
   * The constructor: a loop appending the conditional of each row, a loop
   * appending each conditional's integral to the marginal function, then
   * the marginal itself.
   */
  method Build2D(data: seq<real>, w: nat, h: nat) returns (d: Distribution2D)
    requires |data| == w * h
    ensures d == MakeDistribution2D(data, w, h)
  {
    var conditional: seq<Distribution1D> := [];
    var v := 0;
    while v < h
      invariant 0 <= v <= h && |conditional| == v
      invariant forall i :: 0 <= i < v ==> conditional[i] == MakeDistribution1D(Row(data, w, h, i))
    {
      var row := Build(Row(data, w, h, v));
      conditional := conditional + [row];
      v := v + 1;
    }
    var marginalFunc: seq<real> := [];
    v := 0;
    while v < h
      invariant 0 <= v <= h && |marginalFunc| == v
      invariant forall i :: 0 <= i < v ==> marginalFunc[i] == conditional[i].funcInt
    {
      marginalFunc := marginalFunc + [conditional[v].funcInt];
      v := v + 1;
    }
    assert marginalFunc == RowIntegrals(data, w, h);
    var marginal := Build(marginalFunc);
    d := Distribution2D(conditional, marginal);
  }

  /**
   * What sampling and pdf lookups need: a marginal with at least one row,
   * one conditional per row, and every conditional as wide as the first.
   */
  predicate Shaped2D(d: Distribution2D)
  {
    Shaped(d.marginal) && |d.conditional| == |d.marginal.func| &&
    forall v :: 0 <= v < |d.conditional| ==>
      Shaped(d.conditional[v]) && |d.conditional[v].func| == |d.conditional[0].func|
  }

  /** A grid with at least one row and one column gives a well-shaped distribution. */
  lemma MakeShaped(data: seq<real>, w: nat, h: nat)
    requires |data| == w * h && w >= 1 && h >= 1
    ensures Shaped2D(MakeDistribution2D(data, w, h))
  {
  }

  datatype Sample2D = Sample2D(uv: Point2, pdf: real)

  /**
   * sampleContinuous: v from the marginal with u.y, then x from the
   * conditional of the chosen row with u.x; the density is the product.
   */
  function SampleContinuous2D(d: Distribution2D, u: Point2): (s: Sample2D)
    requires Shaped2D(d)
  {
    var sv := SampleContinuous(d.marginal, u.y);
    var su := SampleContinuous(d.conditional[sv.off], u.x);
    Sample2D(Point2(su.x, sv.x), su.pdf * sv.pdf)
  }

  /** The cell of [0, 1) that x falls in when it is cut into n equal cells, clamped into 0 .. n-1. */
  function Cell(x: real, n: int): (i: int)
    requires n >= 1
    ensures 0 <= i < n
  {
    ClampI(Trunc(x * (n as real)), 0, n - 1)
  }

  /** A point of bin [off/n, (off+1)/n) lies in cell off. */
  lemma CellOfBin(x: real, n: int, off: int)
    requires InCell(x, n, off)
    ensures Cell(x, n) == off
  {
    TruncScaledBin(x, n, off);
  }

  /**
   * pdf: the cell of uv, with both indices clamped into the grid; 1 for an
   * all-zero marginal, 0 for an all-zero row, else the product of the
   * marginal and conditional densities.
   */
  function Pdf2D(d: Distribution2D, uv: Point2): (p: real)
    requires Shaped2D(d)
  {
    var height := |d.marginal.func|;
    var width := |d.conditional[0].func|;
    var v := Cell(uv.y, height);
    var u := Cell(uv.x, width);
    if d.marginal.funcInt == 0.0 then 1.0
    else if d.conditional[v].funcInt == 0.0 then 0.0
    else (d.marginal.func[v] / d.marginal.funcInt) * (d.conditional[v].func[u] / d.conditional[v].funcInt)
  }

  /** Every row of a non-negative grid is non-negative. */
  lemma RowNonNegative(data: seq<real>, w: nat, h: nat, v: nat)
    requires |data| == w * h && v < h && NonNegative(data)
    ensures NonNegative(Row(data, w, h, v))
  {
    RowInside(w, h, v);
    var row := Row(data, w, h, v);
    forall i | 0 <= i < |row|
      ensures row[i] >= 0.0
    {
      assert row[i] == data[v * w + i];
    }
  }

  /**
   * The shape a constructed distribution has for a non-negative grid:
   * non-negative rows, each conditional built from its row, and the
   * marginal built from the conditionals' integrals.
   */
  predicate Regular2D(d: Distribution2D)
  {
    Shaped2D(d) && NonNegative(d.marginal.func) &&
    d.marginal == MakeDistribution1D(d.marginal.func) &&
    forall v :: 0 <= v < |d.conditional| ==>
      NonNegative(d.conditional[v].func) &&
      d.conditional[v] == MakeDistribution1D(d.conditional[v].func) &&
      d.marginal.func[v] == d.conditional[v].funcInt
  }

  /** A non-negative grid with at least one row and one column gives a regular distribution. */
  lemma MakeRegular(data: seq<real>, w: nat, h: nat)
    requires |data| == w * h && w >= 1 && h >= 1 && NonNegative(data)
    ensures Regular2D(MakeDistribution2D(data, w, h))
  {
    var d := MakeDistribution2D(data, w, h);
    MakeShaped(data, w, h);
    forall v | 0 <= v < h
      ensures NonNegative(d.conditional[v].func) && d.marginal.func[v] >= 0.0
      ensures d.marginal.func[v] == d.conditional[v].funcInt
    {
      RowNonNegative(data, w, h, v);
      RawCdfMonotone(Row(data, w, h, v), 0, w);
    }
  }

  /** The density of a regular distribution is never negative, wherever it is looked up. */
  lemma Pdf2DNonNegative(d: Distribution2D, uv: Point2)
    requires Regular2D(d)
    ensures Pdf2D(d, uv) >= 0.0
  {
    var height := |d.marginal.func|;
    var width := |d.conditional[0].func|;
    var v := Cell(uv.y, height);
    var u := Cell(uv.x, width);
    RawCdfMonotone(d.marginal.func, 0, height);
    RawCdfMonotone(d.conditional[v].func, 0, width);
    if d.marginal.funcInt != 0.0 && d.conditional[v].funcInt != 0.0 {
      NonNegQuotientProduct(d.marginal.func[v], d.marginal.funcInt, d.conditional[v].func[u], d.conditional[v].funcInt);
    }
  }

  lemma NonNegQuotientProduct(a: real, b: real, c: real, e: real)
    requires a >= 0.0 && b > 0.0 && c >= 0.0 && e > 0.0
    ensures (a / b) * (c / e) >= 0.0
  {
    assert a / b >= 0.0 && c / e >= 0.0;
  }

  /** x lies in cell off of [0, 1) cut into n equal cells. */
  predicate InCell(x: real, n: int, off: int)
  {
    n >= 1 && 0 <= off < n && (off as real) / (n as real) <= x < (off as real + 1.0) / (n as real)
  }

  /**
   * One 1-D sampling step of a distribution built from a non-negative
   * function: the sample lies in the cell of its bin, in [0, 1), and its
   * density is the bin's normalised value (positive) or 1 for a zero
   * integral.
   */
  lemma SampleStep(c: Distribution1D, u: real)
    requires c == MakeDistribution1D(c.func) && NonNegative(c.func) && |c.func| >= 1 && u >= 0.0
    ensures var s := SampleContinuous(c, u);
      InCell(s.x, |c.func|, s.off) && 0.0 <= s.x < 1.0 && (u > 0.0 ==> s.x > 0.0) &&
      c.funcInt >= 0.0 &&
      (c.funcInt > 0.0 ==> c.func[s.off] > 0.0 && s.pdf > 0.0 && s.pdf == c.func[s.off] / c.funcInt) &&
      (c.funcInt <= 0.0 ==> s.pdf == 1.0)
  {
    SampleInBin(c.func, u);
    RawCdfMonotone(c.func, 0, |c.func|);
  }

  /**
   * Where a sample of a regular distribution lands: in [0, 1)^2 for
   * u >= 0, strictly inside when u > 0, and always with positive density.
   */
  lemma SampleInUnitSquare(d: Distribution2D, u: Point2)
    requires Regular2D(d) && u.x >= 0.0 && u.y >= 0.0
    ensures var s := SampleContinuous2D(d, u);
      0.0 <= s.uv.x < 1.0 && 0.0 <= s.uv.y < 1.0 &&
      (u.x > 0.0 ==> s.uv.x > 0.0) && (u.y > 0.0 ==> s.uv.y > 0.0) &&
      s.pdf > 0.0
  {
    var sv := SampleContinuous(d.marginal, u.y);
    SampleStep(d.marginal, u.y);
    var c := d.conditional[sv.off];
    var su := SampleContinuous(c, u.x);
    SampleStep(c, u.x);
    SampleParts(d, u, sv, su);
    if d.marginal.funcInt == 0.0 {
      ZeroIntegral(d.marginal.func, sv.off);
    }
    MulPositive(su.pdf, sv.pdf);
  }

  /**
   * Sampling round trip: for a regular distribution and u >= 0, looking the
   * density up at the sampled uv gives back the density the sampler
   * reported.
   */
  lemma SamplePdfRoundTrip(d: Distribution2D, u: Point2)
    requires Regular2D(d) && u.x >= 0.0 && u.y >= 0.0
    ensures Pdf2D(d, SampleContinuous2D(d, u).uv) == SampleContinuous2D(d, u).pdf
  {
    var sv := SampleContinuous(d.marginal, u.y);
    SampleStep(d.marginal, u.y);
    var c := d.conditional[sv.off];
    var su := SampleContinuous(c, u.x);
    SampleStep(c, u.x);
    SampleParts(d, u, sv, su);
    CellOfBin(sv.x, |d.marginal.func|, sv.off);
    CellOfBin(su.x, |d.conditional[0].func|, su.off);
    if d.marginal.funcInt == 0.0 {
      ZeroIntegral(d.marginal.func, sv.off);
    }
    RoundTripAtCells(d, u, sv, su);
  }

  /** The round trip once the cells of both coordinates and the two 1-D densities are known. */
  lemma RoundTripAtCells(d: Distribution2D, u: Point2, sv: Sample1D, su: Sample1D)
    requires Shaped2D(d) && sv == SampleContinuous(d.marginal, u.y)
    requires su == SampleContinuous(d.conditional[sv.off], u.x)
    requires Cell(sv.x, |d.marginal.func|) == sv.off && Cell(su.x, |d.conditional[0].func|) == su.off
    requires d.marginal.funcInt == 0.0 ==> sv.pdf == 1.0 && su.pdf == 1.0
    requires d.marginal.funcInt != 0.0 ==>
      d.marginal.funcInt > 0.0 && d.conditional[sv.off].funcInt > 0.0
    ensures Pdf2D(d, SampleContinuous2D(d, u).uv) == SampleContinuous2D(d, u).pdf
  {
    SampleParts(d, u, sv, su);
    PdfAtCells(d, Point2(su.x, sv.x), sv.off, su.off, sv.pdf, su.pdf);
  }

  lemma SampleParts(d: Distribution2D, u: Point2, sv: Sample1D, su: Sample1D)
    requires Shaped2D(d) && sv == SampleContinuous(d.marginal, u.y)
    requires su == SampleContinuous(d.conditional[sv.off], u.x)
    ensures SampleContinuous2D(d, u) == Sample2D(Point2(su.x, sv.x), su.pdf * sv.pdf)
  {
  }

  /** The density at a uv whose cells are known, given the two 1-D densities of those cells. */
  lemma PdfAtCells(d: Distribution2D, uv: Point2, v: int, u: int, pv: real, pu: real)
    requires Shaped2D(d) && Cell(uv.y, |d.marginal.func|) == v && Cell(uv.x, |d.conditional[0].func|) == u
    requires d.marginal.funcInt == 0.0 ==> pv == 1.0 && pu == 1.0
    requires d.marginal.funcInt != 0.0 ==>
      d.conditional[v].funcInt != 0.0 &&
      pv == d.marginal.func[v] / d.marginal.funcInt &&
      pu == d.conditional[v].func[u] / d.conditional[v].funcInt
    ensures Pdf2D(d, uv) == pu * pv
  {
  }

  lemma MulPositive(a: real, b: real)
    requires a > 0.0 && b > 0.0
    ensures a * b > 0.0
  {
  }
}
