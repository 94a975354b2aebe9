/** The serial solver slv_serial (current revision): halo sizing and the
    construction-time sanity check, periodic halo filling, time-level cycling,
    the stash toggle, forcing accumulation and application, and the guarded
    ratios from which diagnosed velocities are computed. */
module SlvSerial {
  import opened Grid
  import opened Halo
  import opened Outcomes
  import Schemes
  import TimeLevels

  // ---------------------------------------------------------------------------
  // Equation-system description consumed by the solver
  // ---------------------------------------------------------------------------

  /** A right-hand-side term (rhs<real_t>): its explicit part updates the
      tendency R given the fields at the current level; its implicit part is the
      linear coefficient for a time step dt. */
  datatype RhsTerm = RhsTerm(explicitPart: (seq<real>, seq<seq<real>>) -> seq<real>, implicitPart: real -> real)

  /** An advected variable: "dynamic" variables enter a diagnosed velocity;
      a variable without right-hand-side terms is homogeneous. */
  datatype Var = Var(name: string, dynamic: bool, rhsTerms: seq<RhsTerm>) {
    predicate IsHomogeneous() { |rhsTerms| == 0 }
  }

  // ---------------------------------------------------------------------------
  // Halo sizing and the construction-time sanity check
  // ---------------------------------------------------------------------------

  /** halo_vctr = (stencil_extent - 1) / 2: the widest halo a stencil of that
      extent, centred on the cell, can need on each side. */
  function HaloVctr(stencilExtent: int): (h: int)
    ensures stencilExtent >= 1 ==> h >= 0 && 2 * h + 1 <= stencilExtent <= 2 * h + 2
  {
    CDiv(stencilExtent - 1, 2)
  }

  /** halo_sclr[e]: the vector halo, plus one more cell for a dynamic variable
      when the velocity is diagnosed (t = n + 1/2 extrapolation reads further). */
  function HaloSclr(stencilExtent: int, velocityConstant: bool, v: Var): (h: int)
    ensures HaloVctr(stencilExtent) <= h <= HaloVctr(stencilExtent) + 1
    ensures h == HaloVctr(stencilExtent) + 1 <==> !velocityConstant && v.dynamic
  {
    if !velocityConstant && v.dynamic then HaloVctr(stencilExtent) + 1 else HaloVctr(stencilExtent)
  }

  function Len(r: Rng): int {
    r.last - r.first + 1
  }

  function RangeAlong(ijk: Box, a: Axis): Rng {
    match a
    case X => ijk.ri
    case Y => ijk.rj
    case Z => ijk.rk
  }

  /** The condition the constructor enforces on one axis: the halo may not be
      longer than the subdomain unless the grid is degenerate along that axis. */
  predicate HaloFitsAxis(halo: int, ijk: Box, grid: Dims, a: Axis) {
    halo <= Len(RangeAlong(ijk, a)) || grid.Along(a) == 1
  }

  predicate HaloFits(halo: int, ijk: Box, grid: Dims) {
    forall a: Axis :: HaloFitsAxis(halo, ijk, grid, a)
  }

  /** The three sanity checks of the constructor, X first, then Y, then Z. */
  function SanityCheck(halo: int, ijk: Box, grid: Dims): (r: Result<()>)
    ensures r.Ok? <==> HaloFits(halo, ijk, grid)
    ensures r.Err? ==> r.error.HaloExceedsDomain? && r.error.halo == halo
    ensures r.Err? ==> !HaloFitsAxis(halo, ijk, grid, r.error.axis)
    ensures r.Err? ==> grid.Along(r.error.axis) != 1
    ensures r.Err? ==> r.error.len == Len(RangeAlong(ijk, r.error.axis))
    ensures r.Err? && r.error.axis != X ==> HaloFitsAxis(halo, ijk, grid, X)
    ensures r.Err? && r.error.axis == Z ==> HaloFitsAxis(halo, ijk, grid, Y)
  {
    if !HaloFitsAxis(halo, ijk, grid, X) then Err(HaloExceedsDomain(X, halo, Len(ijk.ri)))
    else if !HaloFitsAxis(halo, ijk, grid, Y) then Err(HaloExceedsDomain(Y, halo, Len(ijk.rj)))
    else if !HaloFitsAxis(halo, ijk, grid, Z) then Err(HaloExceedsDomain(Z, halo, Len(ijk.rk)))
    else Ok(())
  }

  /** Runs the sanity check for every variable in order, stopping at the first failure. */
  function CheckAll(halos: seq<int>, ijk: Box, grid: Dims): (r: Result<()>)
    ensures r.Ok? <==> forall e :: 0 <= e < |halos| ==> HaloFits(halos[e], ijk, grid)
    ensures r.Err? ==> exists e :: (0 <= e < |halos| && SanityCheck(halos[e], ijk, grid) == r
      && forall e' :: 0 <= e' < e ==> HaloFits(halos[e'], ijk, grid))
  {
    if |halos| == 0 then Ok(())
    else
      var first := SanityCheck(halos[0], ijk, grid);
      if first.Err? then first
      else
        var rest := CheckAll(halos[1..], ijk, grid);
        if rest.Err? then
          var e :| 0 <= e < |halos[1..]| && SanityCheck(halos[1..][e], ijk, grid) == rest
            && forall e' :: 0 <= e' < e ==> HaloFits(halos[1..][e'], ijk, grid);
          assert SanityCheck(halos[e + 1], ijk, grid) == rest;
          rest
        else
          assert forall e :: 1 <= e < |halos| ==> halos[e] == halos[1..][e - 1];
          rest
  }

  /** What the constructor decides about storage: the halo of every variable,
      the number of time levels allocated for each, and which variables get a
      tendency array R (exactly the non-homogeneous ones). */
  datatype Layout = Layout(haloVctr: int, haloSclr: seq<int>, timeLevels: int, rhsAllocated: seq<bool>)

  /** The constructor slv_serial(setup, output, i_min..k_max) up to the first
      sanity-check failure. */
  function Construct(scheme: Schemes.Scheme, velocityConstant: bool, vars: seq<Var>, ijk: Box, grid: Dims): (r: Result<Layout>)
    ensures r.Ok? <==> forall e :: 0 <= e < |vars| ==>
      HaloFits(HaloSclr(scheme.StencilExtent(), velocityConstant, vars[e]), ijk, grid)
    ensures r.Ok? ==> |r.value.haloSclr| == |vars| == |r.value.rhsAllocated|
    ensures r.Ok? ==> r.value.haloVctr == HaloVctr(scheme.StencilExtent())
    ensures r.Ok? ==> forall e :: 0 <= e < |vars| ==>
      r.value.haloSclr[e] == HaloSclr(scheme.StencilExtent(), velocityConstant, vars[e])
    ensures r.Ok? ==> forall e :: 0 <= e < |vars| ==> (r.value.rhsAllocated[e] <==> !vars[e].IsHomogeneous())
    ensures r.Ok? ==> r.value.timeLevels == scheme.TimeLevels()
    ensures r.Err? ==> r.error.HaloExceedsDomain? && grid.Along(r.error.axis) != 1
  {
    var se := scheme.StencilExtent();
    var halos := seq(|vars|, e requires 0 <= e < |vars| => HaloSclr(se, velocityConstant, vars[e]));
    var checked := CheckAll(halos, ijk, grid);
    assert forall e :: 0 <= e < |vars| ==> halos[e] == HaloSclr(se, velocityConstant, vars[e]);
    if checked.Err? then Err(checked.error)
    else Ok(Layout(HaloVctr(se), halos, scheme.TimeLevels(),
                   seq(|vars|, e requires 0 <= e < |vars| => !vars[e].IsHomogeneous())))
  }

  /** With every grid extent equal to 1 (a zero-dimensional run) no halo can
      make the constructor fail. */
  lemma DegenerateGridNeverFails(scheme: Schemes.Scheme, velocityConstant: bool, vars: seq<Var>, ijk: Box)
    ensures Construct(scheme, velocityConstant, vars, ijk, Dims(1, 1, 1)).Ok?
  {
  }

  /** Both schemes read one cell on either side of i, and the vector halo of
      their stencil extent is exactly that one cell. */
  lemma StencilFitsHalo(scheme: Schemes.Scheme)
    ensures HaloVctr(scheme.StencilExtent()) == 1
  {
  }

  // ---------------------------------------------------------------------------
  // Periodic halo filling
  // ---------------------------------------------------------------------------

  /** fill_halos_helper: on a degenerate axis (mod == 1) every listed halo layer
      copies coordinate 0; otherwise the slab is assigned from the range
      (lo + mod) % mod .. (hi + mod) % mod, which Blitz requires to be as long
      as the destination. */
  function FillHalosHelper(f: Field, a: Axis, lo: int, hi: int, r1: Rng, r2: Rng, mod: int): (g: Field)
    requires mod >= 1
    requires mod != 1 && lo <= hi ==> CRem(hi + mod, mod) - SourceStart(lo, mod) == hi - lo
    ensures forall c :: InSlab(c, a, lo, hi, r1, r2) && (mod == 1 || -mod <= lo) ==>
      g(c) == f(WithCoord(c, a, Wrap(Coord(c, a), mod)))
    ensures forall c :: !InSlab(c, a, lo, hi, r1, r2) ==> g(c) == f(c)
  {
    var g := if mod == 1 then CopyFromZero(f, a, lo, hi, r1, r2)
      else RangeCopy(f, a, lo, hi, SourceStart(lo, mod), r1, r2);
    FillHalosHelperWraps(f, a, lo, hi, r1, r2, mod, g);
    g
  }

  lemma FillHalosHelperWraps(f: Field, a: Axis, lo: int, hi: int, r1: Rng, r2: Rng, mod: int, g: Field)
    requires mod >= 1
    requires mod != 1 && lo <= hi ==> CRem(hi + mod, mod) - SourceStart(lo, mod) == hi - lo
    requires g == if mod == 1 then CopyFromZero(f, a, lo, hi, r1, r2)
      else RangeCopy(f, a, lo, hi, SourceStart(lo, mod), r1, r2)
    ensures forall c :: InSlab(c, a, lo, hi, r1, r2) && (mod == 1 || -mod <= lo) ==>
      g(c) == f(WithCoord(c, a, Wrap(Coord(c, a), mod)))
  {
    forall c | InSlab(c, a, lo, hi, r1, r2) && (mod == 1 || -mod <= lo)
      ensures g(c) == f(WithCoord(c, a, Wrap(Coord(c, a), mod)))
    {
      if mod != 1 {
        RangeCopyAligned(lo, hi, mod, Coord(c, a));
      }
    }
  }

  /** The halo slab of axis a (both sides) restricted to r1 x r2 across. */
  predicate InHalo(c: Cell, a: Axis, n: int, h: int, r1: Rng, r2: Rng) {
    InSlab(c, a, -h, -1, r1, r2) || InSlab(c, a, n, n - 1 + h, r1, r2)
  }

  /** The two source ranges of an axis have the destination lengths. */
  lemma AxisRangesConform(n: int, h: int)
    requires n >= 1 && h >= 0 && (h <= n || n == 1)
    ensures n != 1 && h >= 1 ==> CRem(-1 + n, n) - SourceStart(-h, n) == h - 1
    ensures n != 1 && h >= 1 ==> CRem(n - 1 + h + n, n) - SourceStart(n, n) == h - 1
  {
    if n != 1 && h >= 1 {
      RangeCopyIsWrap(-h, -1, n, h, -h);
      RangeCopyIsWrap(n, n - 1 + h, n, h, n);
    }
  }

  /** The left then the right fill along axis a of extent n with halo h: every
      halo cell of the slab reads the owned cell at its periodic image. */
  function FillAxis(f: Field, a: Axis, n: int, h: int, r1: Rng, r2: Rng): (g: Field)
    requires n >= 1 && h >= 0 && (h <= n || n == 1)
    ensures forall c :: InHalo(c, a, n, h, r1, r2) ==> g(c) == f(WithCoord(c, a, Wrap(Coord(c, a), n)))
    ensures forall c :: !InHalo(c, a, n, h, r1, r2) ==> g(c) == f(c)
  {
    AxisRangesConform(n, h);
    var g := FillHalosHelper(FillHalosHelper(f, a, -h, -1, r1, r2, n), a, n, n - 1 + h, r1, r2, n);
    FillAxisWraps(f, a, n, h, r1, r2);
    g
  }

  lemma FillAxisWraps(f: Field, a: Axis, n: int, h: int, r1: Rng, r2: Rng)
    requires n >= 1 && h >= 0 && (h <= n || n == 1)
    requires n != 1 && h >= 1 ==> CRem(-1 + n, n) - SourceStart(-h, n) == h - 1
    requires n != 1 && h >= 1 ==> CRem(n - 1 + h + n, n) - SourceStart(n, n) == h - 1
    ensures forall c :: InHalo(c, a, n, h, r1, r2) ==>
      FillHalosHelper(FillHalosHelper(f, a, -h, -1, r1, r2, n), a, n, n - 1 + h, r1, r2, n)(c)
        == f(WithCoord(c, a, Wrap(Coord(c, a), n)))
    ensures forall c :: !InHalo(c, a, n, h, r1, r2) ==>
      FillHalosHelper(FillHalosHelper(f, a, -h, -1, r1, r2, n), a, n, n - 1 + h, r1, r2, n)(c) == f(c)
  {
    var left := FillHalosHelper(f, a, -h, -1, r1, r2, n);
    var g := FillHalosHelper(left, a, n, n - 1 + h, r1, r2, n);
    forall c | InHalo(c, a, n, h, r1, r2)
      ensures g(c) == f(WithCoord(c, a, Wrap(Coord(c, a), n)))
    {
      var x := Coord(c, a);
      var w := WithCoord(c, a, Wrap(x, n));
      if x < 0 {
        if n != 1 {
          RangeCopyIsWrap(-h, -1, n, h, x);
        }
        assert !InSlab(c, a, n, n - 1 + h, r1, r2);
        assert g(c) == left(c);
        assert left(c) == f(w);
      } else {
        if n != 1 {
          RangeCopyIsWrap(n, n - 1 + h, n, h, x);
        }
        assert g(c) == left(w);
        assert !InSlab(w, a, -h, -1, r1, r2);
        assert left(w) == f(w);
      }
    }
    forall c | !InHalo(c, a, n, h, r1, r2)
      ensures g(c) == f(c)
    {
      assert g(c) == left(c);
    }
  }

  /** The storage range of a variable with halo h: the owned range widened by h on every axis. */
  function Extended(d: Dims, h: int): Box {
    Box(Widened(Owned(d.nx), h), Widened(Owned(d.ny), h), Widened(Owned(d.nz), h))
  }

  /** fill_halos on one level of one variable of a single self-neighbour subdomain
      [0, nx) x [0, ny) x [0, nz): x halos over the owned j and k, then y halos
      over the already-extended i and owned k, then z halos over the extended i
      and j. Every cell of the storage range, corners included, ends up equal to
      the owned cell at its periodic image; nothing outside that range changes. */
  function FillLevel(f: Field, d: Dims, h: int): (g: Field)
    requires d.Positive() && h >= 0
    requires (h <= d.nx || d.nx == 1) && (h <= d.ny || d.ny == 1) && (h <= d.nz || d.nz == 1)
    ensures forall c :: Extended(d, h).Contains(c) ==> g(c) == f(WrapCell(c, d))
    ensures forall c :: !Extended(d, h).Contains(c) ==> g(c) == f(c)
  {
    var iAll := Widened(Owned(d.nx), h);
    var jAll := Widened(Owned(d.ny), h);
    var gx := FillAxis(f, X, d.nx, h, Owned(d.ny), Owned(d.nz));
    var gy := FillAxis(gx, Y, d.ny, h, Owned(d.nz), iAll);
    var gz := FillAxis(gy, Z, d.nz, h, iAll, jAll);
    FillLevelWraps(f, d, h, gx, gy, gz);
    FillLevelFrame(f, d, h, gx, gy, gz);
    gz
  }

  /** One axis fill seen from a cell of its widened slab: the cell reads its
      periodic image along that axis, whether it is a halo cell or an owned one. */
  lemma FillAxisAt(f: Field, g: Field, a: Axis, n: int, h: int, r1: Rng, r2: Rng, c: Cell)
    requires n >= 1 && h >= 0 && (h <= n || n == 1)
    requires g == FillAxis(f, a, n, h, r1, r2)
    requires Widened(Owned(n), h).Contains(Coord(c, a))
    requires r1.Contains(Across(c, a).0) && r2.Contains(Across(c, a).1)
    ensures g(c) == f(WithCoord(c, a, Wrap(Coord(c, a), n)))
  {
    if !InHalo(c, a, n, h, r1, r2) {
      assert 0 <= Coord(c, a) < n;
      assert WithCoord(c, a, Coord(c, a)) == c by {
        match a
        case X =>
        case Y =>
        case Z =>
      }
    }
  }

  lemma FillLevelWraps(f: Field, d: Dims, h: int, gx: Field, gy: Field, gz: Field)
    requires d.Positive() && h >= 0
    requires (h <= d.nx || d.nx == 1) && (h <= d.ny || d.ny == 1) && (h <= d.nz || d.nz == 1)
    requires gx == FillAxis(f, X, d.nx, h, Owned(d.ny), Owned(d.nz))
    requires gy == FillAxis(gx, Y, d.ny, h, Owned(d.nz), Widened(Owned(d.nx), h))
    requires gz == FillAxis(gy, Z, d.nz, h, Widened(Owned(d.nx), h), Widened(Owned(d.ny), h))
    ensures forall c :: Extended(d, h).Contains(c) ==> gz(c) == f(WrapCell(c, d))
  {
    forall c | Extended(d, h).Contains(c)
      ensures gz(c) == f(WrapCell(c, d))
    {
      var iAll, jAll := Widened(Owned(d.nx), h), Widened(Owned(d.ny), h);
      var ck := c.(k := Wrap(c.k, d.nz));
      var cj := ck.(j := Wrap(c.j, d.ny));
      var ci := cj.(i := Wrap(c.i, d.nx));
      FillAxisAt(gy, gz, Z, d.nz, h, iAll, jAll, c);
      assert WithCoord(c, Z, Wrap(Coord(c, Z), d.nz)) == ck;
      FillAxisAt(gx, gy, Y, d.ny, h, Owned(d.nz), iAll, ck);
      assert WithCoord(ck, Y, Wrap(Coord(ck, Y), d.ny)) == cj;
      FillAxisAt(f, gx, X, d.nx, h, Owned(d.ny), Owned(d.nz), cj);
      assert WithCoord(cj, X, Wrap(Coord(cj, X), d.nx)) == ci;
      assert ci == WrapCell(c, d);
    }
  }

  /** Cells outside the storage range are in none of the six slabs. */
  lemma FillLevelFrame(f: Field, d: Dims, h: int, gx: Field, gy: Field, gz: Field)
    requires d.Positive() && h >= 0
    requires (h <= d.nx || d.nx == 1) && (h <= d.ny || d.ny == 1) && (h <= d.nz || d.nz == 1)
    requires gx == FillAxis(f, X, d.nx, h, Owned(d.ny), Owned(d.nz))
    requires gy == FillAxis(gx, Y, d.ny, h, Owned(d.nz), Widened(Owned(d.nx), h))
    requires gz == FillAxis(gy, Z, d.nz, h, Widened(Owned(d.nx), h), Widened(Owned(d.ny), h))
    ensures forall c :: !Extended(d, h).Contains(c) ==> gz(c) == f(c)
  {
    forall c | !Extended(d, h).Contains(c)
      ensures gz(c) == f(c)
    {
      var iAll, jAll := Widened(Owned(d.nx), h), Widened(Owned(d.ny), h);
      assert Across(c, X) == (c.j, c.k) && Across(c, Y) == (c.k, c.i) && Across(c, Z) == (c.i, c.j);
      assert !InHalo(c, Z, d.nz, h, iAll, jAll);
      assert gz(c) == gy(c);
      assert !InHalo(c, Y, d.ny, h, Owned(d.nz), iAll);
      assert gy(c) == gx(c);
      assert !InHalo(c, X, d.nx, h, Owned(d.ny), Owned(d.nz));
    }
  }

  /** fill_halos(e, n): only psi[e][n] is written. */
  function FillHalos(psi: seq<seq<Field>>, haloSclr: seq<int>, e: int, n: int, d: Dims): (r: seq<seq<Field>>)
    requires 0 <= e < |psi| && |haloSclr| == |psi| && 0 <= n < |psi[e]|
    requires d.Positive() && haloSclr[e] >= 0
    requires (haloSclr[e] <= d.nx || d.nx == 1) && (haloSclr[e] <= d.ny || d.ny == 1)
      && (haloSclr[e] <= d.nz || d.nz == 1)
    ensures |r| == |psi| && |r[e]| == |psi[e]|
    ensures forall e' :: 0 <= e' < |psi| && e' != e ==> r[e'] == psi[e']
    ensures forall n' :: 0 <= n' < |psi[e]| && n' != n ==> r[e][n'] == psi[e][n']
    ensures forall c :: Extended(d, haloSclr[e]).Contains(c) ==> r[e][n](c) == psi[e][n](WrapCell(c, d))
    ensures forall c :: !Extended(d, haloSclr[e]).Contains(c) ==> r[e][n](c) == psi[e][n](c)
  {
    var filled: Field := FillLevel(psi[e][n], d, haloSclr[e]);
    var levels: seq<Field> := psi[e][n := filled];
    psi[e := levels]
  }

  // ---------------------------------------------------------------------------
  // Time levels and the stash
  // ---------------------------------------------------------------------------

  /** cycle_arrays(e, n): relabels the storage of variable e's levels according
      to the advection scheme's number of time levels `levels`. */
  function CycleArrays<T>(psi: seq<seq<T>>, e: int, n: int, levels: int): (r: Result<seq<seq<T>>>)
    requires 0 <= e < |psi|
    requires levels == 2 ==> 0 <= n && n + 1 < |psi[e]|
    requires levels == 3 ==> 1 <= n && n + 1 < |psi[e]|
    ensures r.Ok? <==> levels == 2 || levels == 3
    ensures r.Ok? ==> |r.value| == |psi| && |r.value[e]| == |psi[e]|
    ensures r.Ok? ==> forall e' :: 0 <= e' < |psi| && e' != e ==> r.value[e'] == psi[e']
    ensures r.Ok? ==> multiset(r.value[e]) == multiset(psi[e]) && r.value[e][n] == psi[e][n + 1]
    ensures r.Ok? && levels == 2 ==> r.value[e][n + 1] == psi[e][n]
    ensures r.Ok? && levels == 3 ==> r.value[e][n - 1] == psi[e][n] && r.value[e][n + 1] == psi[e][n - 1]
    ensures r.Ok? ==> forall l :: 0 <= l < |psi[e]| && (l < n + 2 - levels || l > n + 1) ==> r.value[e][l] == psi[e][l]
  {
    TimeLevels.CyclePermutes(psi[e], n, levels);
    var cycled :- TimeLevels.Cycle(psi[e], n, levels);
    Ok(psi[e := cycled])
  }

  /** Both modelled schemes declare 2 or 3 time levels, so cycle_arrays never
      reaches its failing default branch for them. */
  lemma SchemesCycle<T>(psi: seq<seq<T>>, e: int, scheme: Schemes.Scheme)
    requires 0 <= e < |psi| && |psi[e]| == scheme.TimeLevels()
    ensures CycleArrays(psi, e, scheme.TimeLevels() - 2, scheme.TimeLevels()).Ok?
  {
  }

  /** The solver's single stash buffer and whether it currently holds nothing. */
  datatype Stash = Stash(saved: seq<real>, empty: bool)

  /** stash_cycle(e, n) on a dynamic variable: an empty stash saves psi[e][n] and
      leaves the field alone; a full stash writes its contents back into the
      field. Either way the stash flips between empty and full. */
  function StashCycle(v: Var, st: Stash, field: seq<real>): (r: (Stash, seq<real>))
    requires v.dynamic
    ensures r.0.empty == !st.empty
    ensures st.empty ==> r.0.saved == field && r.1 == field
    ensures !st.empty ==> r.1 == st.saved && r.0.saved == st.saved
  {
    if st.empty then (Stash(field, false), field) else (Stash(st.saved, true), st.saved)
  }

  /** A pair of stash_cycle calls starting from an empty stash brings the field
      back to the value it had at the first call, whatever happened in between,
      and leaves the stash empty again. */
  lemma StashPairRestores(v: Var, st: Stash, before: seq<real>, between: seq<real>)
    requires v.dynamic && st.empty
    ensures StashCycle(v, st, before).1 == before
    ensures StashCycle(v, StashCycle(v, st, before).0, between).1 == before
    ensures StashCycle(v, StashCycle(v, st, before).0, between).0.empty
  {
  }

  // ---------------------------------------------------------------------------
  // Forcings
  // ---------------------------------------------------------------------------

  function Zeros(n: nat): (z: seq<real>)
    ensures |z| == n && forall i :: 0 <= i < n ==> z[i] == 0.0
  {
    seq(n, _ => 0.0)
  }

  /** Each right-hand-side term in order updates R. */
  function Accumulate(terms: seq<RhsTerm>, R: seq<real>, psi: seq<seq<real>>): seq<real>
    decreases |terms|
  {
    if |terms| == 0 then R else Accumulate(terms[1..], terms[0].explicitPart(R, psi), psi)
  }

  /** update_forcings(n): the R array of every non-homogeneous variable is zeroed
      and then receives every explicit term computed from the fields at level n;
      the (never allocated) R entry of a homogeneous variable is left alone. */
  function UpdateForcings(vars: seq<Var>, psiN: seq<seq<real>>, rhsR: seq<seq<real>>): (r: seq<seq<real>>)
    requires |rhsR| == |vars|
    ensures |r| == |vars|
    ensures forall e :: 0 <= e < |vars| && vars[e].IsHomogeneous() ==> r[e] == rhsR[e]
    ensures forall e :: 0 <= e < |vars| && !vars[e].IsHomogeneous() ==>
      r[e] == Accumulate(vars[e].rhsTerms, Zeros(|rhsR[e]|), psiN)
  {
    seq(|vars|, e requires 0 <= e < |vars| =>
      if vars[e].IsHomogeneous() then rhsR[e] else Accumulate(vars[e].rhsTerms, Zeros(|rhsR[e]|), psiN))
  }

  /** Because R is zeroed first, stale tendencies from an earlier step never
      leak into the new ones: two calls that differ only in the old R contents
      (of the same shape) agree on every non-homogeneous variable. */
  lemma UpdateForcingsForgetsStaleTendencies(vars: seq<Var>, psiN: seq<seq<real>>, old1: seq<seq<real>>, old2: seq<seq<real>>)
    requires |old1| == |old2| == |vars|
    requires forall e :: 0 <= e < |vars| ==> |old1[e]| == |old2[e]|
    ensures forall e :: 0 <= e < |vars| && !vars[e].IsHomogeneous() ==>
      UpdateForcings(vars, psiN, old1)[e] == UpdateForcings(vars, psiN, old2)[e]
  {
  }

  /** The summed implicit coefficient C of a variable's terms for step dt. */
  function ImplicitSum(terms: seq<RhsTerm>, dt: real): real {
    if |terms| == 0 then 0.0 else terms[0].implicitPart(dt) + ImplicitSum(terms[1..], dt)
  }

  /** apply_forcings(e, n, dt) over the owned cells: the explicit update
      psi + dt R, followed, when C is not zero, by division by 1 - dt C. The
      result is the solution of the semi-implicit equation
      r = psi + dt R + dt C r, and is the explicit result exactly when C = 0. */
  function ApplyForcings(v: Var, psi: seq<real>, R: seq<real>, dt: real): (r: seq<real>)
    requires !v.IsHomogeneous()
    requires |R| == |psi|
    requires 1.0 - dt * ImplicitSum(v.rhsTerms, dt) != 0.0
    ensures |r| == |psi|
    ensures forall i :: 0 <= i < |r| ==>
      r[i] == psi[i] + dt * R[i] + dt * ImplicitSum(v.rhsTerms, dt) * r[i]
    ensures ImplicitSum(v.rhsTerms, dt) == 0.0 ==> forall i :: 0 <= i < |r| ==> r[i] == psi[i] + dt * R[i]
  {
    var c := ImplicitSum(v.rhsTerms, dt);
    var explicit := seq(|psi|, i requires 0 <= i < |psi| => psi[i] + dt * R[i]);
    if c != 0.0 then
      var denom := 1.0 - dt * ImplicitSum(v.rhsTerms, dt);
      assert denom != 0.0;
      var r := seq(|psi|, i requires 0 <= i < |psi| && denom != 0.0 => explicit[i] / denom);
      assert forall i :: 0 <= i < |r| ==> r[i] * denom == explicit[i];
      r
    else explicit
  }

  // ---------------------------------------------------------------------------
  // Diagnosed velocities: the ratios Q that populate_courant_fields consumes
  // ---------------------------------------------------------------------------

  /** An entry of velmap(g, xyz): a variable index and the power it enters with. */
  datatype VelEntry = VelEntry(v: nat, pow: int)

  /** The zero-guarded division where(d != 0, q / d, 0). */
  function GuardedRatio(q: seq<real>, d: seq<real>): (r: seq<real>)
    requires |q| == |d|
    ensures |r| == |q|
    ensures forall x :: 0 <= x < |r| && d[x] != 0.0 ==> r[x] * d[x] == q[x]
    ensures forall x :: 0 <= x < |r| && d[x] == 0.0 ==> r[x] == 0.0
  {
    seq(|q|, x requires 0 <= x < |q| => if d[x] != 0.0 then q[x] / d[x] else 0.0)
  }

  predicate EntriesFit(entries: seq<VelEntry>, psi: seq<seq<real>>, len: int) {
    forall m :: 0 <= m < |entries| ==> entries[m].v < |psi| && |psi[entries[m].v]| == len
  }

  /** The entries from m on, each applied as a guarded division. */
  function DivideAll(entries: seq<VelEntry>, m: nat, psi: seq<seq<real>>, q: seq<real>): (r: seq<real>)
    requires EntriesFit(entries, psi, |q|)
    ensures |r| == |q|
    decreases |entries| - m
  {
    if m >= |entries| then q
    else DivideAll(entries, m + 1, psi, GuardedRatio(q, psi[entries[m].v]))
  }

  /** Q for one axis: the first variable, divided by every later one. */
  function DiagnoseAxis(vm: seq<VelEntry>, psi: seq<seq<real>>, len: int): (r: seq<real>)
    requires |vm| > 0 && EntriesFit(vm, psi, len)
    ensures |r| == len
  {
    DivideAll(vm, 1, psi, psi[vm[0].v])
  }

  /** The values at cell x of the variables of entries m, m+1, ... */
  function Denominators(entries: seq<VelEntry>, m: nat, psi: seq<seq<real>>, len: int, x: int): (ds: seq<real>)
    requires EntriesFit(entries, psi, len) && 0 <= x < len
    ensures |ds| == if m >= |entries| then 0 else |entries| - m
    decreases |entries| - m
  {
    if m >= |entries| then [] else [psi[entries[m].v][x]] + Denominators(entries, m + 1, psi, len, x)
  }

  function Prod(ds: seq<real>): real {
    if |ds| == 0 then 1.0 else ds[0] * Prod(ds[1..])
  }

  lemma {:induction false} ProdNonZero(ds: seq<real>)
    requires 0.0 !in ds
    ensures Prod(ds) != 0.0
    decreases |ds|
  {
    if |ds| > 0 {
      assert 0.0 !in ds[1..] by {
        forall k | 0 <= k < |ds| - 1
          ensures ds[1..][k] != 0.0
        {
          assert ds[1..][k] == ds[k + 1];
        }
      }
      ProdNonZero(ds[1..]);
      assert ds[0] != 0.0;
    }
  }

  /** The reference value of a chain of guarded divisions: the numerator over
      the product of the denominators, or 0 when any denominator is 0. */
  function GuardedQuotient(num: real, ds: seq<real>): (r: real)
    ensures 0.0 !in ds ==> r * Prod(ds) == num
    ensures 0.0 in ds ==> r == 0.0
  {
    if 0.0 in ds then 0.0
    else
      ProdNonZero(ds);
      num / Prod(ds)
  }

  /** Dividing first by d and then by the rest is dividing by the whole chain. */
  lemma GuardedQuotientCons(num: real, d: real, rest: seq<real>)
    ensures GuardedQuotient(if d != 0.0 then num / d else 0.0, rest) == GuardedQuotient(num, [d] + rest)
  {
    var ds := [d] + rest;
    assert ds[0] == d && ds[1..] == rest;
    assert 0.0 in ds <==> d == 0.0 || 0.0 in rest;
    if d == 0.0 {
      if 0.0 !in rest {
        ProdNonZero(rest);
        assert GuardedQuotient(0.0, rest) == 0.0 / Prod(rest) == 0.0;
      }
    } else if 0.0 !in rest {
      ProdNonZero(rest);
      var p := Prod(rest);
      assert Prod(ds) == d * p;
      assert (num / d) / p == num / (d * p);
    }
  }

  /** DivideAll from entry m agrees, cell by cell, with the reference quotient
      of the cell value over the remaining variables' values. */
  lemma {:induction false} DivideAllIsQuotient(entries: seq<VelEntry>, m: nat, psi: seq<seq<real>>, q: seq<real>, x: int)
    requires EntriesFit(entries, psi, |q|) && 0 <= x < |q|
    ensures DivideAll(entries, m, psi, q)[x] == GuardedQuotient(q[x], Denominators(entries, m, psi, |q|, x))
    decreases |entries| - m
  {
    if m >= |entries| {
      assert Denominators(entries, m, psi, |q|, x) == [];
    } else {
      var d := psi[entries[m].v];
      var g := GuardedRatio(q, d);
      DivideAllIsQuotient(entries, m + 1, psi, g, x);
      GuardedQuotientCons(q[x], d[x], Denominators(entries, m + 1, psi, |q|, x));
    }
  }

  /** Q of an axis is, in every cell, the first variable over the product of
      the later ones, and 0 wherever any later variable is 0. */
  lemma DiagnoseAxisIsQuotient(vm: seq<VelEntry>, psi: seq<seq<real>>, len: int, x: int)
    requires |vm| > 0 && EntriesFit(vm, psi, len) && 0 <= x < len
    ensures DiagnoseAxis(vm, psi, len)[x] == GuardedQuotient(psi[vm[0].v][x], Denominators(vm, 1, psi, len, x))
  {
    DivideAllIsQuotient(vm, 1, psi, psi[vm[0].v], x);
  }

  predicate HeadOk(vm: seq<VelEntry>) { |vm| == 0 || vm[0].pow == 1 }

  predicate TailOk(vm: seq<VelEntry>) { forall m :: 1 <= m < |vm| ==> vm[m].pow == -1 }

  /** The first axis at or after xyz whose first velmap entry does not have power 1. */
  function FirstBadHead(velmaps: seq<seq<VelEntry>>, xyz: nat): (r: Option<nat>)
    ensures r.None? ==> forall y :: xyz <= y < |velmaps| ==> HeadOk(velmaps[y])
    ensures r.Some? ==> xyz <= r.value < |velmaps| && !HeadOk(velmaps[r.value])
    decreases |velmaps| - xyz
  {
    if xyz >= |velmaps| then None
    else if !HeadOk(velmaps[xyz]) then Some(xyz)
    else FirstBadHead(velmaps, xyz + 1)
  }

  /** The first entry at or after m in vm whose power is not -1. */
  function FirstBadPower(vm: seq<VelEntry>, m: nat): (r: Option<nat>)
    ensures r.None? ==> forall k :: m <= k < |vm| ==> vm[k].pow == -1
    ensures r.Some? ==> m <= r.value < |vm| && vm[r.value].pow != -1
    decreases |vm| - m
  {
    if m >= |vm| then None
    else if vm[m].pow != -1 then Some(m)
    else FirstBadPower(vm, m + 1)
  }

  /** The first axis at or after xyz with a later entry whose power is not -1. */
  function FirstBadTail(velmaps: seq<seq<VelEntry>>, xyz: nat): (r: Option<nat>)
    ensures r.None? ==> forall y :: xyz <= y < |velmaps| ==> TailOk(velmaps[y])
    ensures r.Some? ==> xyz <= r.value < |velmaps| && !TailOk(velmaps[r.value])
    decreases |velmaps| - xyz
  {
    if xyz >= |velmaps| then None
    else if FirstBadPower(velmaps[xyz], 1).Some? then Some(xyz)
    else FirstBadTail(velmaps, xyz + 1)
  }

  /** The ratio arrays of update_courants for one time level: for every axis with
      a non-empty velmap, Q starts as the first variable (which must enter with
      power 1) and is then divided, cell by cell and with the zero guard, by
      every later variable (each must enter with power -1). An axis with an empty
      velmap keeps its Q. Both assertions of the source become errors, the
      power-1 check over all axes first. */
  function DiagnoseLevel(velmaps: seq<seq<VelEntry>>, psi: seq<seq<real>>, q: seq<seq<real>>): (r: Result<seq<seq<real>>>)
    requires |q| == |velmaps|
    requires forall xyz :: 0 <= xyz < |velmaps| ==> EntriesFit(velmaps[xyz], psi, |q[xyz]|)
    ensures r.Ok? <==> forall xyz :: 0 <= xyz < |velmaps| ==> HeadOk(velmaps[xyz]) && TailOk(velmaps[xyz])
    ensures r.Err? && r.error.FirstPowerNotOne? ==> r.error.xyz < |velmaps| && !HeadOk(velmaps[r.error.xyz])
    ensures r.Err? && r.error.UnsupportedPower? ==>
      (forall xyz :: 0 <= xyz < |velmaps| ==> HeadOk(velmaps[xyz])) && r.error.xyz < |velmaps| && !TailOk(velmaps[r.error.xyz])
    ensures r.Ok? ==> |r.value| == |q|
    ensures r.Ok? ==> forall xyz :: 0 <= xyz < |q| && |velmaps[xyz]| == 0 ==> r.value[xyz] == q[xyz]
    ensures r.Ok? ==> forall xyz :: 0 <= xyz < |q| && |velmaps[xyz]| > 0 ==>
      r.value[xyz] == DiagnoseAxis(velmaps[xyz], psi, |q[xyz]|)
  {
    var head := FirstBadHead(velmaps, 0);
    if head.Some? then Err(FirstPowerNotOne(head.value, velmaps[head.value][0].pow))
    else
      var tail := FirstBadTail(velmaps, 0);
      if tail.Some? then
        var vm := velmaps[tail.value];
        var m := FirstBadPower(vm, 1);
        Err(UnsupportedPower(tail.value, vm[m.value].pow))
      else
        Ok(seq(|q|, xyz requires 0 <= xyz < |q| =>
          if |velmaps[xyz]| == 0 then q[xyz]
          else DiagnoseAxis(velmaps[xyz], psi, |q[xyz]|)))
  }
}
