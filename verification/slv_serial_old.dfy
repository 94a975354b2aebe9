/** The earlier revision of the serial solver (slv_serial.hpp): one field, one
    halo width for all axes, storage for every time level over the widened
    range, face-only halo filling and the same time-level cycling. */
module SlvSerialOld {
  import opened Grid
  import opened Halo
  import opened Outcomes
  import Schemes
  import TimeLevels
  import SlvSerial

  /** Two cells that differ by at most h along one axis and agree on the others. */
  predicate Near(c: Cell, c': Cell, h: int) {
    (c'.j == c.j && c'.k == c.k && -h <= c'.i - c.i <= h)
    || (c'.i == c.i && c'.k == c.k && -h <= c'.j - c.j <= h)
    || (c'.i == c.i && c'.j == c.j && -h <= c'.k - c.k <= h)
  }

  /** The constructor's allocation: halo = (stencil_extent - 1) / 2 and one
      array per time level over the owned ranges widened by that halo, so every
      cell within the halo of an owned cell along an axis has storage. */
  function Allocate(scheme: Schemes.Scheme, ijk: Box): (levels: seq<Box>)
    ensures |levels| == scheme.TimeLevels()
    ensures forall n, c, c' ::
      (0 <= n < |levels| && ijk.Contains(c) && Near(c, c', SlvSerial.HaloVctr(scheme.StencilExtent()))
       ==> levels[n].Contains(c'))
  {
    var h := SlvSerial.HaloVctr(scheme.StencilExtent());
    seq(scheme.TimeLevels(), _ => Box(Widened(ijk.ri, h), Widened(ijk.rj, h), Widened(ijk.rk, h)))
  }

  /** The fill of both halo sides along axis a over the owned range of the
      other two axes; each side is one range assignment from (x + n) % n. */
  function FillAxis(f: Field, a: Axis, n: int, h: int, r1: Rng, r2: Rng): (g: Field)
    requires 1 <= n && 0 <= h <= n
    ensures forall c :: SlvSerial.InHalo(c, a, n, h, r1, r2) ==> g(c) == f(WithCoord(c, a, Wrap(Coord(c, a), n)))
    ensures forall c :: !SlvSerial.InHalo(c, a, n, h, r1, r2) ==> g(c) == f(c)
  {
    var left := RangeCopy(f, a, -h, -1, SourceStart(-h, n), r1, r2);
    var g := RangeCopy(left, a, n, n - 1 + h, SourceStart(n, n), r1, r2);
    FillAxisWraps(f, a, n, h, r1, r2, left, g);
    g
  }

  lemma FillAxisWraps(f: Field, a: Axis, n: int, h: int, r1: Rng, r2: Rng, left: Field, g: Field)
    requires 1 <= n && 0 <= h <= n
    requires left == RangeCopy(f, a, -h, -1, SourceStart(-h, n), r1, r2)
    requires g == RangeCopy(left, a, n, n - 1 + h, SourceStart(n, n), r1, r2)
    ensures forall c :: SlvSerial.InHalo(c, a, n, h, r1, r2) ==> g(c) == f(WithCoord(c, a, Wrap(Coord(c, a), n)))
    ensures forall c :: !SlvSerial.InHalo(c, a, n, h, r1, r2) ==> g(c) == f(c)
  {
    forall c | SlvSerial.InHalo(c, a, n, h, r1, r2)
      ensures g(c) == f(WithCoord(c, a, Wrap(Coord(c, a), n)))
    {
      var x := Coord(c, a);
      var w := WithCoord(c, a, Wrap(x, n));
      if x < 0 {
        RangeCopyIsWrap(-h, -1, n, h, x);
        assert !InSlab(c, a, n, n - 1 + h, r1, r2);
        assert g(c) == left(c);
        assert left(c) == f(w);
      } else {
        RangeCopyIsWrap(n, n - 1 + h, n, h, x);
        assert g(c) == left(w);
        assert !InSlab(w, a, -h, -1, r1, r2);
        assert left(w) == f(w);
      }
    }
    forall c | !SlvSerial.InHalo(c, a, n, h, r1, r2)
      ensures g(c) == f(c)
    {
      assert g(c) == left(c);
    }
  }

  /** A halo cell across one face: outside the owned range, within the halo, on
      exactly one axis. */
  predicate FaceHalo(c: Cell, d: Dims, h: int) {
    SlvSerial.InHalo(c, X, d.nx, h, Owned(d.ny), Owned(d.nz))
    || SlvSerial.InHalo(c, Y, d.ny, h, Owned(d.nz), Owned(d.nx))
    || SlvSerial.InHalo(c, Z, d.nz, h, Owned(d.nx), Owned(d.ny))
  }

  /** fill_halos(n) on one level of a self-neighbour subdomain [0, nx) x [0, ny)
      x [0, nz): the six face halos receive the owned cells at their periodic
      images, and every other cell -- owned cells, edge and corner halo cells,
      cells beyond the halo -- keeps its value. */
  function FillLevel(f: Field, d: Dims, h: int): (g: Field)
    requires d.Positive() && 0 <= h
    requires h <= d.nx && h <= d.ny && h <= d.nz
    ensures forall c :: FaceHalo(c, d, h) ==> g(c) == f(WrapCell(c, d))
    ensures forall c :: !FaceHalo(c, d, h) ==> g(c) == f(c)
  {
    var gx := FillAxis(f, X, d.nx, h, Owned(d.ny), Owned(d.nz));
    var gy := FillAxis(gx, Y, d.ny, h, Owned(d.nz), Owned(d.nx));
    var gz := FillAxis(gy, Z, d.nz, h, Owned(d.nx), Owned(d.ny));
    FillLevelFaces(f, d, h, gx, gy, gz);
    gz
  }

  lemma FillLevelFaces(f: Field, d: Dims, h: int, gx: Field, gy: Field, gz: Field)
    requires d.Positive() && 0 <= h
    requires h <= d.nx && h <= d.ny && h <= d.nz
    requires gx == FillAxis(f, X, d.nx, h, Owned(d.ny), Owned(d.nz))
    requires gy == FillAxis(gx, Y, d.ny, h, Owned(d.nz), Owned(d.nx))
    requires gz == FillAxis(gy, Z, d.nz, h, Owned(d.nx), Owned(d.ny))
    ensures forall c :: FaceHalo(c, d, h) ==> gz(c) == f(WrapCell(c, d))
    ensures forall c :: !FaceHalo(c, d, h) ==> gz(c) == f(c)
  {
    forall c | FaceHalo(c, d, h)
      ensures gz(c) == f(WrapCell(c, d))
    {
      var w := WrapCell(c, d);
      assert Across(c, X) == (c.j, c.k) && Across(c, Y) == (c.k, c.i) && Across(c, Z) == (c.i, c.j);
      if SlvSerial.InHalo(c, X, d.nx, h, Owned(d.ny), Owned(d.nz)) {
        assert gz(c) == gy(c) == gx(c);
        assert gx(c) == f(c.(i := w.i));
      } else if SlvSerial.InHalo(c, Y, d.ny, h, Owned(d.nz), Owned(d.nx)) {
        assert gz(c) == gy(c);
        assert gy(c) == gx(c.(j := w.j));
        assert gx(c.(j := w.j)) == f(c.(j := w.j));
      } else {
        assert gz(c) == gy(c.(k := w.k));
        assert gy(c.(k := w.k)) == gx(c.(k := w.k)) == f(c.(k := w.k));
      }
    }
    forall c | !FaceHalo(c, d, h)
      ensures gz(c) == f(c)
    {
      assert gz(c) == gy(c) == gx(c);
    }
  }

  /** The images named for the x faces: halo cell -d holds owned cell nx - d and
      halo cell nx - 1 + d holds owned cell d - 1, for every 1 <= d <= halo. */
  lemma XFaceImages(f: Field, dims: Dims, h: int, d: int, j: int, k: int)
    requires dims.Positive() && 0 <= h
    requires h <= dims.nx && h <= dims.ny && h <= dims.nz
    requires 1 <= d <= h && 0 <= j < dims.ny && 0 <= k < dims.nz
    ensures FillLevel(f, dims, h)(Cell(-d, j, k)) == f(Cell(dims.nx - d, j, k))
    ensures FillLevel(f, dims, h)(Cell(dims.nx - 1 + d, j, k)) == f(Cell(d - 1, j, k))
  {
    assert FaceHalo(Cell(-d, j, k), dims, h);
    assert FaceHalo(Cell(dims.nx - 1 + d, j, k), dims, h);
  }

  /** fill_halos(n): only level n is read or written. */
  function FillHalos(psi: seq<Field>, n: int, d: Dims, h: int): (r: seq<Field>)
    requires 0 <= n < |psi|
    requires d.Positive() && 0 <= h
    requires h <= d.nx && h <= d.ny && h <= d.nz
    ensures |r| == |psi|
    ensures forall l :: 0 <= l < |psi| && l != n ==> r[l] == psi[l]
    ensures forall c :: FaceHalo(c, d, h) ==> r[n](c) == psi[n](WrapCell(c, d))
    ensures forall c :: !FaceHalo(c, d, h) ==> r[n](c) == psi[n](c)
  {
    var filled: Field := FillLevel(psi[n], d, h);
    psi[n := filled]
  }

  /** cycle_arrays(n): swap for two levels, rotate for three, fail otherwise. */
  function CycleArrays<T>(psi: seq<T>, n: int, levels: int): (r: Result<seq<T>>)
    requires levels == 2 ==> 0 <= n && n + 1 < |psi|
    requires levels == 3 ==> 1 <= n && n + 1 < |psi|
    ensures r.Ok? <==> levels == 2 || levels == 3
    ensures r.Ok? ==> |r.value| == |psi| && multiset(r.value) == multiset(psi) && r.value[n] == psi[n + 1]
    ensures r.Ok? && levels == 2 ==> r.value[n + 1] == psi[n]
    ensures r.Ok? && levels == 3 ==> r.value[n - 1] == psi[n] && r.value[n + 1] == psi[n - 1]
    ensures r.Ok? ==> forall l :: 0 <= l < |psi| && (l < n + 2 - levels || l > n + 1) ==> r.value[l] == psi[l]
  {
    TimeLevels.CyclePermutes(psi, n, levels);
    TimeLevels.Cycle(psi, n, levels)
  }
}
