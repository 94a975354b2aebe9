/** The index and data-transfer functors of the super-droplet model
    (sdm_functors.hpp): ravel/unravel between a cell (i, j) of an nx-wide
    two-dimensional grid and a flat index, the transfers between a grid field
    and a flat device vector, the moment counter and multiply_by_constant.
    Integer % and / are C++'s (truncating). */
module SdmFunctors {
  import opened Grid
  import Halo

  /** multiply_by_constant: x * c. */
  function MultiplyByConstant(c: real, x: real): (r: real)
    ensures c == 1.0 ==> r == x
    ensures x == 0.0 || c == 0.0 ==> r == 0.0
  {
    x * c
  }

  /** Multiplying by c and then by 1 / c gives back the value. */
  lemma MultiplyByConstantInverts(c: real, x: real)
    requires c != 0.0
    ensures MultiplyByConstant(1.0 / c, MultiplyByConstant(c, x)) == x
  {
    assert (x * c) * (1.0 / c) == x * (c * (1.0 / c));
  }

  /** ravel_indices: i + j * n. */
  function Ravel(n: int, i: int, j: int): int {
    i + j * n
  }

  /** The unravelled column and row of a flat index: ij % n and ij / n. */
  function UnravelI(n: int, ij: int): int
    requires n > 0
  {
    CRem(ij, n)
  }

  function UnravelJ(n: int, ij: int): int
    requires n > 0
  {
    CDiv(ij, n)
  }

  /** Unravel undoes ravel on the grid: column i in [0, n), row j >= 0. */
  lemma UnravelRavel(n: int, i: int, j: int)
    requires n > 0 && 0 <= i < n && 0 <= j
    ensures UnravelI(n, Ravel(n, i, j)) == i && UnravelJ(n, Ravel(n, i, j)) == j
  {
    var ij := Ravel(n, i, j);
    assert ij - j * n == i;
    Halo.MulOutsideUnit(j, n);
    DivModUnique(ij, n, j);
  }

  /** Ravel undoes unravel for every flat index (C++ division and remainder
      always satisfy (a / n) * n + a % n == a). */
  lemma RavelUnravel(n: int, ij: int)
    requires n > 0
    ensures Ravel(n, UnravelI(n, ij), UnravelJ(n, ij)) == ij
  {
  }

  /** Euclidean division is determined by the remainder range. */
  lemma DivModUnique(a: int, n: int, k: int)
    requires n >= 1 && 0 <= a - k * n < n
    ensures a / n == k && a % n == a - k * n
  {
    Halo.ModOffset(a, n, k);
    var q := a / n;
    assert q * n + a % n == a;
    assert (q - k) * n == 0;
    Halo.MulOutsideUnit(q - k, n);
  }

  /** copy_to_device(ij): to[ij] = scl * from(ij % n, ij / n, 0); no other
      element of the device vector changes. */
  function CopyToDevice(n: int, from: Field, to: seq<real>, scl: real, ij: int): (r: seq<real>)
    requires n > 0 && 0 <= ij < |to|
    ensures |r| == |to|
    ensures forall k :: 0 <= k < |to| && k != ij ==> r[k] == to[k]
    ensures r[ij] == scl * from(Cell(UnravelI(n, ij), UnravelJ(n, ij), 0))
  {
    to[ij := scl * from(Cell(CRem(ij, n), CDiv(ij, n), 0))]
  }

  /** The element at the ravelled index of a grid cell receives that cell. */
  lemma CopyToDeviceAtRavel(n: int, from: Field, to: seq<real>, scl: real, i: int, j: int)
    requires n > 0 && 0 <= i < n && 0 <= j && Ravel(n, i, j) < |to|
    ensures CopyToDevice(n, from, to, scl, Ravel(n, i, j))[Ravel(n, i, j)] == scl * from(Cell(i, j, 0))
  {
    UnravelRavel(n, i, j);
  }

  /** copy_from_device(idx): the cell (idx2ij[idx] % n, idx2ij[idx] / n, 0)
      becomes scl * from[idx]; no other cell changes. */
  function CopyFromDevice(n: int, idx2ij: seq<int>, from: seq<real>, to: Field, scl: real, idx: int): (r: Field)
    requires n > 0 && 0 <= idx < |idx2ij| && idx < |from|
    ensures r(Cell(UnravelI(n, idx2ij[idx]), UnravelJ(n, idx2ij[idx]), 0)) == scl * from[idx]
    ensures forall c :: c != Cell(UnravelI(n, idx2ij[idx]), UnravelJ(n, idx2ij[idx]), 0) ==> r(c) == to(c)
  {
    var target := Cell(CRem(idx2ij[idx], n), CDiv(idx2ij[idx], n), 0);
    (c: Cell) => if c == target then scl * from[idx] else to(c)
  }

  /** A grid cell copied to the device and back through an index map that
      points at its own ravelled index returns scaled by both factors. */
  lemma DeviceRoundTrip(n: int, f: Field, dev: seq<real>, s1: real, idx2ij: seq<int>, g: Field, s2: real, i: int, j: int)
    requires n > 0 && 0 <= i < n && 0 <= j
    requires Ravel(n, i, j) < |dev| && Ravel(n, i, j) < |idx2ij|
    requires idx2ij[Ravel(n, i, j)] == Ravel(n, i, j)
    ensures CopyFromDevice(n, idx2ij, CopyToDevice(n, f, dev, s1, Ravel(n, i, j)), g, s2, Ravel(n, i, j))(Cell(i, j, 0))
      == s2 * (s1 * f(Cell(i, j, 0)))
  {
    UnravelRavel(n, i, j);
  }

  /** With both functors at their default scale factor 1, the round trip returns
      the grid cell unchanged. */
  lemma DefaultScaleRoundTrip(n: int, f: Field, dev: seq<real>, idx2ij: seq<int>, g: Field, i: int, j: int)
    requires n > 0 && 0 <= i < n && 0 <= j
    requires Ravel(n, i, j) < |dev| && Ravel(n, i, j) < |idx2ij|
    requires idx2ij[Ravel(n, i, j)] == Ravel(n, i, j)
    ensures CopyFromDevice(n, idx2ij, CopyToDevice(n, f, dev, 1.0, Ravel(n, i, j)), g, 1.0, Ravel(n, i, j))(Cell(i, j, 0))
      == f(Cell(i, j, 0))
  {
    DeviceRoundTrip(n, f, dev, 1.0, idx2ij, g, 1.0, i, j);
  }

  /** The super-droplet statistics: per droplet, the size coordinate xi and the
      multiplicity n. */
  datatype Stat = Stat(xi: seq<real>, n: seq<real>)

  /** The size-coordinate mapping class: xi of a wet radius, and the wet radius
      and its square and cube as functions of xi. */
  datatype XiMap = XiMap(xiOfRw: real -> real, rwOfXi: real -> real, rw2OfXi: real -> real, rw3OfXi: real -> real)

  /** A moment counter; its threshold is stored as xi_of_rw(threshold). */
  datatype MomentCounter = MomentCounter(stat: Stat, xm: XiMap, threshold: real, k: nat)

  function NewMomentCounter(stat: Stat, xm: XiMap, thresholdRw: real, k: nat): (mc: MomentCounter)
    ensures mc.threshold == xm.xiOfRw(thresholdRw)
  {
    MomentCounter(stat, xm, xm.xiOfRw(thresholdRw), k)
  }

  function Pow(x: real, k: nat): real {
    if k == 0 then 1.0 else x * Pow(x, k - 1)
  }

  /** operator()(id): droplets at or below the threshold contribute nothing;
      the others contribute n times the k-th power of their wet radius, from
      the dedicated functions for k = 1, 2, 3 and from pow otherwise. */
  function Count(mc: MomentCounter, id: int): (r: real)
    requires 0 <= id < |mc.stat.xi| && id < |mc.stat.n|
    ensures mc.stat.xi[id] <= mc.threshold ==> r == 0.0
    ensures mc.stat.xi[id] > mc.threshold && mc.k == 0 ==> r == mc.stat.n[id]
    ensures mc.stat.xi[id] > mc.threshold && mc.k >= 4 ==>
      r == mc.stat.n[id] * Pow(mc.xm.rwOfXi(mc.stat.xi[id]), mc.k)
  {
    var xi := mc.stat.xi[id];
    if xi > mc.threshold then
      match mc.k
      case 0 => mc.stat.n[id]
      case 1 => mc.stat.n[id] * mc.xm.rwOfXi(xi)
      case 2 => mc.stat.n[id] * mc.xm.rw2OfXi(xi)
      case 3 => mc.stat.n[id] * mc.xm.rw3OfXi(xi)
      case _ => mc.stat.n[id] * Pow(mc.xm.rwOfXi(xi), mc.k)
    else 0.0
  }

  /** When the square and cube functions agree with the radius function at a
      droplet, every order k counts n * rw^k above the threshold: the special
      cases k <= 3 are the general formula. */
  lemma CountIsMoment(mc: MomentCounter, id: int)
    requires 0 <= id < |mc.stat.xi| && id < |mc.stat.n|
    requires var xi := mc.stat.xi[id]; var rw := mc.xm.rwOfXi(xi);
      mc.xm.rw2OfXi(xi) == rw * rw && mc.xm.rw3OfXi(xi) == rw * rw * rw
    ensures Count(mc, id) ==
      if mc.stat.xi[id] > mc.threshold then mc.stat.n[id] * Pow(mc.xm.rwOfXi(mc.stat.xi[id]), mc.k) else 0.0
  {
    var rw := mc.xm.rwOfXi(mc.stat.xi[id]);
    assert Pow(rw, 1) == rw;
    assert Pow(rw, 2) == rw * rw;
    assert Pow(rw, 3) == rw * (rw * rw);
  }

  /** The threshold is given as a wet radius: with an increasing xi_of_rw, a
      droplet counts exactly when its radius exceeds the threshold radius. */
  lemma CountsAboveThresholdRadius(stat: Stat, xm: XiMap, thresholdRw: real, k: nat, id: int, rw: real)
    requires 0 <= id < |stat.xi| && id < |stat.n|
    requires forall a, b :: a < b ==> xm.xiOfRw(a) < xm.xiOfRw(b)
    requires stat.xi[id] == xm.xiOfRw(rw)
    ensures rw <= thresholdRw ==> Count(NewMomentCounter(stat, xm, thresholdRw, k), id) == 0.0
    ensures rw > thresholdRw && k == 0 ==> Count(NewMomentCounter(stat, xm, thresholdRw, k), id) == stat.n[id]
  {
    if rw < thresholdRw {
      assert xm.xiOfRw(rw) < xm.xiOfRw(thresholdRw);
    } else if rw > thresholdRw {
      assert xm.xiOfRw(thresholdRw) < xm.xiOfRw(rw);
    }
  }
}
