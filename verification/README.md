# icicle advection core in Dafny

This project models the sequential advection kernel of icicle, a finite-difference
cloud-model framework. The model has four parts.

- **Serial solver.** These are the modules `SlvSerial` (the current `slv_serial.cpp`)
  and `SlvSerialOld` (the earlier `slv_serial.hpp`). They cover:
  - halo sizing and the construction-time check that a halo fits the subdomain;
  - periodic halo filling through `(index + extent) % extent`, with the special case
    for degenerate axes;
  - cycling of time-level storage: a swap for 2 levels, a rotation for 3;
  - the stash toggle;
  - forcing accumulation, and its explicit plus semi-implicit application;
  - the zero-guarded ratios from which diagnosed velocities are computed.
- **Advection stencils.** These are `Mpdata` (`adv_mpdata.hpp`) and `Leapfrog`
  (`adv_leapfrog.hpp`), with the scheme traits in `Schemes`. They cover:
  - the MPDATA donor-cell flux and its antidiffusive passes, with the `> 0`
    denominator guard;
  - the leapfrog centred difference with the face-averaged Courant number.

  Both work on one periodic row of exact reals.
- **Harmonic oscillator.** `HarmonicOscillator` (`eqs_harmonic_oscillator.hpp`)
  supplies the restoring-force terms, and its lemmas connect them to the solver's
  forcing step.
- **SDM functors.** `SdmFunctors` (`sdm_functors.hpp`) covers:
  - ravel and unravel of `(i, j)` indices;
  - the device transfer functors;
  - the moment counter;
  - `multiply_by_constant`.

The shared modules are:
- `Outcomes`: `Result`, `Option`, and the error cases. Configuration failures that
  the source reports with `error_macro` or `assert` become `Err` values.
- `Grid`: cells, axes and ranges, plus C++'s truncating `%` and `/` written out
  as `CRem` and `CDiv`.
- `Halo`: the Blitz range assignment that both solver revisions use.
- `Periodic`: neighbour indices on a periodic row, and sums with their telescoping
  lemmas.
- `TimeLevels`: the storage relabelling done by `mtx::cycle`.

Fields are modelled in two ways. A 3-D field is a total function `Cell -> real`;
this is how halo filling is stated. Stencils and forcings work on `seq<real>` over
the owned cells. `real_t` is Dafny's exact `real`, and the C++ `int` indices are
unbounded integers.

## Model

| member | source | states |
|---|---|---|
| Halo.RangeCopyIsWrap | src/slv_serial.cpp:217-218 | When the halo is no wider than the axis, the range copy from `(lo + mod) % mod` reads exactly the periodic image of every halo coordinate. The source range is as long as the destination range. |
| Halo.WideHaloLeavesOwnedRange | src/slv_serial.cpp:218 | With a halo wider than the axis, the source range starts outside the owned cells (at -1 for halo 3 on extent 2). This is why the constructor's bound matters. |
| SlvSerial.HaloVctr | src/slv_serial.cpp:32 | `(stencil_extent - 1) / 2` is the largest h with 2h + 1 <= stencil_extent, and it is non-negative. |
| SlvSerial.HaloSclr | src/slv_serial.cpp:33-46 | A scalar halo is the vector halo or one more. It is one more exactly when the velocity is not constant and the variable is dynamic. |
| SlvSerial.StencilFitsHalo | src/slv_serial.cpp:32 | For both schemes' stencil extent of 3, the halo is exactly one cell. |
| SlvSerial.SanityCheck | src/slv_serial.cpp:54-62 | Succeeds iff the halo fits every axis whose grid extent is not 1. On failure it reports the first failing axis in X, Y, Z order, with its length, and that axis is never degenerate. |
| SlvSerial.CheckAll | src/slv_serial.cpp:51-62 | Succeeds iff every variable's halo fits. On failure it returns the first failing variable's error. |
| SlvSerial.Construct | src/slv_serial.cpp:31-80 | Succeeds iff every scalar halo fits. The layout holds the vector halo, each variable's scalar halo and the scheme's time-level count. A tendency array is allocated exactly for the non-homogeneous variables. |
| SlvSerial.DegenerateGridNeverFails | src/slv_serial.cpp:56-61 | On a 1x1x1 grid, construction never fails, whatever the halos. |
| Halo.RangeCopyAligned | src/slv_serial.cpp:217-218 | For any slab starting at or above -mod whose source range has the destination's length, every slab coordinate reads its periodic image. |
| SlvSerial.FillHalosHelper | src/slv_serial.cpp:203-220 | A degenerate axis (mod 1) copies coordinate 0 into every listed layer; otherwise the range copy is used. Either way every slab cell reads its periodic image, given that the slab starts at or above -mod. Cells outside the slab are unchanged. |
| SlvSerial.FillAxis | src/slv_serial.cpp:195-200 | The left-then-right fill along one axis: every halo cell in the given cross-section reads the owned cell at its wrapped coordinate, degenerate axes included. Every other cell is unchanged. |
| SlvSerial.FillLevel | src/slv_serial.cpp:190-201 | After the x, y and z fills, every cell of the halo-extended box, corners and edges included, holds the owned cell at its wrapped index. Cells outside the box are unchanged. |
| SlvSerial.FillHalos | src/slv_serial.cpp:190-220 | `fill_halos(e, n)` changes only level n of variable e, as FillLevel describes. |
| SlvSerial.CycleArrays | src/slv_serial.cpp:350-362 | Succeeds iff the level count is 2 or 3. The result permutes variable e's level storage. With 2 levels, n and n+1 exchange storage. With 3 levels, new n-1, n, n+1 are old n, n+1, n-1. Every other level and every other variable is unchanged. |
| SlvSerial.SchemesCycle | src/slv_serial.cpp:352-360 | With the level counts of both schemes, cycle_arrays never reaches its failing default. |
| SlvSerial.StashCycle | src/slv_serial.cpp:365-374 | An empty stash saves the field and leaves it unchanged. A full stash restores its contents. Each call flips the empty flag. |
| SlvSerial.StashPairRestores | src/slv_serial.cpp:369-373 | Starting from an empty stash, the second call of a pair restores the value saved by the first, and the stash is empty again. |
| SlvSerial.UpdateForcings | src/slv_serial.cpp:305-322 | Homogeneous variables keep their R. Every other variable's R is its explicit terms accumulated from zero. |
| SlvSerial.UpdateForcingsForgetsStaleTendencies | src/slv_serial.cpp:313 | Old R contents never reach the new tendencies. |
| SlvSerial.ApplyForcings | src/slv_serial.cpp:325-341 | Every owned cell solves the semi-implicit equation r = psi + dt R + dt C r. When C = 0 the result is exactly the explicit update psi + dt R. |
| SlvSerial.GuardedRatio | src/slv_serial.cpp:271-275 | Where the divisor is non-zero, the result times the divisor gives back the numerator. Everywhere else the result is 0. |
| SlvSerial.GuardedQuotient | src/slv_serial.cpp:257-282 | The reference value of a chain of guarded divisions: zero when any denominator is zero, otherwise the value whose product with all the denominators is the numerator. |
| SlvSerial.DivideAllIsQuotient | src/slv_serial.cpp:262-278 | Applying the guarded divisions for entries m onwards gives, in every cell, the reference quotient of the cell value over those entries' values. |
| SlvSerial.DiagnoseAxisIsQuotient | src/slv_serial.cpp:238-282 | Q for an axis is, in every cell, the first variable over the product of the later ones, and 0 wherever any later variable is 0. |
| SlvSerial.DiagnoseLevel | src/slv_serial.cpp:228-283 | Succeeds iff every velmap's first entry has power 1 and every later entry has power -1. The power-1 failure is reported first, naming an offending axis. On success, axes with entries get the diagnosed Q and empty axes keep theirs. |
| SlvSerialOld.Allocate | src/slv_serial.hpp:41-52 | One array per time level. Each array contains every cell within `(stencil_extent - 1) / 2` of an owned cell along one axis. |
| SlvSerialOld.FillAxis | src/slv_serial.hpp:136-145 | With halo <= n, both halos along one axis read the owned cell at the wrapped coordinate, over the owned cross-section only. Nothing else changes. |
| SlvSerialOld.FillLevel | src/slv_serial.hpp:134-166 | After the six directional fills, face halo cells hold their periodic image. Owned cells, edge and corner halo cells, and cells beyond the halo are unchanged. |
| SlvSerialOld.XFaceImages | src/slv_serial.hpp:136-145 | Halo cell -d holds owned cell nx - d, and halo cell nx - 1 + d holds owned cell d - 1, for 1 <= d <= halo. |
| SlvSerialOld.FillHalos | src/slv_serial.hpp:134-166 | Only level n is written. |
| SlvSerialOld.CycleArrays | src/slv_serial.hpp:173-185 | Succeeds iff the level count is 2 or 3. The result is a permutation of the levels. With 2 levels, n and n+1 exchange storage. With 3 levels, new n-1, n, n+1 are old n, n+1, n-1. Every other level is unchanged. |
| TimeLevels.Cycle | src/slv_serial.cpp:352-361 | 2 levels: n and n+1 exchange storage. 3 levels: n-1, n, n+1 take the storage of n, n+1, n-1. Any other count fails. The levels outside the cycled ones are unchanged. |
| TimeLevels.CyclePermutes | src/slv_serial.cpp:352-361 | A successful cycle is a permutation of the storage: the multiset of arrays is unchanged. |
| TimeLevels.TwoLevelPeriod | src/slv_serial.cpp:354-356 | Two swaps restore the original storage assignment. |
| TimeLevels.ThreeLevelPeriod | src/slv_serial.cpp:357-359 | Three rotations restore the original storage assignment. |
| TimeLevels.ThreeLevelRotationMoves | src/slv_serial.cpp:358 | One rotation of distinct storages is not the identity. |
| Schemes.DefaultMpdata | src/adv_mpdata.hpp:20-24 | `adv_mpdata()` with the default iord = 2 is a valid scheme with two passes and two time levels. |
| Schemes.NewMpdata | src/adv_mpdata.hpp:16-24 | Succeeds iff iord > 0, with 2 time levels and iord passes. Otherwise it fails with the offending iord. |
| Mpdata.Flux | src/adv_mpdata.hpp:29 | The donor-cell flux is U times the left value when U >= 0, and U times the right value when U < 0. |
| Mpdata.AntidiffusiveVelocity | src/adv_mpdata.hpp:41-52 | The guarded pseudo-velocity is 0 whenever psi_l + psi_r <= 0, and 0 for a locally uniform field. |
| Mpdata.AntidiffusiveBound | src/adv_mpdata.hpp:43 | For a non-negative field and \|C\| <= 1, the pseudo-velocity is at most \|C\| - C^2 in magnitude. |
| Mpdata.Pass | src/adv_mpdata.hpp:30-56 | Each cell loses the flux through its right face minus the flux through its left face. The row total is unchanged. An all-zero level n leaves level n+1 unchanged. |
| Mpdata.DecrementIsFaceDifference | src/adv_mpdata.hpp:34-54 | The source evaluates the left-face flux from the pair (i-1, i). That value equals the right-face flux of cell i-1, so each decrement is a difference of face fluxes. |
| Mpdata.PassConserves | src/adv_mpdata.hpp:30-56 | Around a periodic row the decrements telescope, so a pass keeps the total of psi[n+1]. |
| Mpdata.ZeroRowMovesNothing | src/adv_mpdata.hpp:30-56 | If level n is all zero, every flux is zero whatever the velocity, and the pass leaves psi[n+1] unchanged. |
| Mpdata.Op1D | src/adv_mpdata.hpp:26-58 | Only level n+1 is written. Each of its cells loses the flux through its right face minus the flux through its left face, with pass 1 using the Courant number and later passes the antidiffusive velocity. Its total is conserved, and an all-zero level n leaves it unchanged. |
| Mpdata.DonorCellKeepsSign | src/adv_mpdata.hpp:34 | With \|C\| <= 1, pass 1 applied to a copy of a non-negative level leaves every cell non-negative. |
| Mpdata.FirstPassIsUpwind | src/adv_mpdata.hpp:32-35 | The pass-1 face flux is C times the upwind cell. |
| Leapfrog.Op | src/adv_leapfrog.hpp:36-41 | Requires step 1. Only level n+1 is written. Each of its cells loses the centred difference of level n times the mean Courant number of its two faces. A cell with zero Courant numbers at both faces keeps its value, and a uniform level n changes nothing. |
| Leapfrog.Row | src/adv_leapfrog.hpp:38-40 | Each cell of the new row is the old value less its centred decrement. A cell whose two faces have zero Courant numbers keeps its value, and a uniform level n leaves the row as it was. |
| Leapfrog.DecrementVanishes | src/adv_leapfrog.hpp:38-40 | The decrement is 0 where both face Courant numbers are 0 or where the two neighbours of the cell agree. |
| Leapfrog.RowConserves | src/adv_leapfrog.hpp:38-40 | Under a uniform Courant number the row's total is unchanged. |
| Leapfrog.UniformCourantConserves | src/adv_leapfrog.hpp:38-40 | With a uniform Cx on a periodic row, the total of level n+1 is unchanged. |
| Leapfrog.IgnoresTransverseCourants | src/adv_leapfrog.hpp:32-34 | The y and z Courant fields do not affect the result. |
| HarmonicOscillator.ExplicitPart | src/eqs_harmonic_oscillator.hpp:41-44 | R keeps its shape. Each cell gains omega_signed times the coupled variable's value there, so cells where that variable is 0 are unchanged. |
| HarmonicOscillator.ImplicitPart | src/eqs_harmonic_oscillator.hpp:46-49 | The coefficient is never positive for dt >= 0. It is 0 iff dt = 0 or omega_signed = 0. |
| HarmonicOscillator.ImplicitPartSignFree | src/eqs_harmonic_oscillator.hpp:37-49 | The implicit coefficient does not depend on the sign of the force. |
| HarmonicOscillator.SystemCouplesPsiAndPhi | src/eqs_harmonic_oscillator.hpp:53-60 | There are exactly two equations, psi and phi. Each has one force, which reads the other variable: +omega for psi, -omega for phi. |
| HarmonicOscillator.Forcings | src/eqs_harmonic_oscillator.hpp:41-59 | The solver's update_forcings gives R_psi = omega phi and R_phi = -omega psi, whatever R held before. |
| HarmonicOscillator.Tendencies | src/eqs_harmonic_oscillator.hpp:43 | The same tendencies, shown from the solver's accumulation. |
| HarmonicOscillator.TendenciesConserveEnergy | src/eqs_harmonic_oscillator.hpp:43 | psi R_psi + phi R_phi = 0 in every cell. |
| HarmonicOscillator.DivisorAtLeastOne | src/eqs_harmonic_oscillator.hpp:48 | For both equations, the apply_forcings divisor 1 - dt C equals 1 + (omega dt)^2, which is at least 1. |
| HarmonicOscillator.ForcingStepScales | src/slv_serial.cpp:332-340 | The oscillator's forcing step divides the explicit update (psi + omega dt phi, phi - omega dt psi) by 1 + (omega dt)^2. |
| HarmonicOscillator.ForcingStepDamps | src/slv_serial.cpp:332-340 | The oscillator's forcing step never increases psi^2 + phi^2 in any cell. |
| SdmFunctors.MultiplyByConstant | src/sdm_functors.hpp:46 | Multiplying by 1 is the identity, and a zero factor gives 0. |
| SdmFunctors.MultiplyByConstantInverts | src/sdm_functors.hpp:46 | Multiplying by c and then by 1/c returns the value. |
| SdmFunctors.UnravelRavel | src/sdm_functors.hpp:54 | For 0 <= i < n and j >= 0, `ravel(i, j) % n == i` and `ravel(i, j) / n == j`. |
| SdmFunctors.RavelUnravel | src/sdm_functors.hpp:108 | `ravel(ij % n, ij / n) == ij` for every flat index. |
| SdmFunctors.CopyToDevice | src/sdm_functors.hpp:106-109 | Element ij becomes scl times the cell at the unravelled (ij % n, ij / n, 0). No other element changes. |
| SdmFunctors.CopyToDeviceAtRavel | src/sdm_functors.hpp:108 | The element at ravel(i, j) receives scl times cell (i, j, 0). |
| SdmFunctors.CopyFromDevice | src/sdm_functors.hpp:84-87 | Cell (idx2ij[idx] % n, idx2ij[idx] / n, 0) becomes scl times from[idx]. No other cell changes. |
| SdmFunctors.DefaultScaleRoundTrip | src/sdm_functors.hpp:81-109 | With both functors at their default `scl = 1`, a cell copied to the device and back returns unchanged. |
| SdmFunctors.DeviceRoundTrip | src/sdm_functors.hpp:84-109 | A cell copied to the device and back through an identity index map returns scaled by both factors. |
| SdmFunctors.Count | src/sdm_functors.hpp:162-172 | Droplets with xi at or below the threshold count 0. Otherwise the count is n for k = 0, and n times rw^k for k >= 4. |
| SdmFunctors.CountIsMoment | src/sdm_functors.hpp:164-171 | When the square and cube functions agree with the radius, every order k counts n times rw^k above the threshold. |
| SdmFunctors.CountsAboveThresholdRadius | src/sdm_functors.hpp:157-171 | With an increasing xi_of_rw, a droplet counts exactly when its radius exceeds the threshold radius given to the constructor. |

## Left out

- I/O and external collaborators are not modelled. These are:
  - `record` and output;
  - `populate_scalar_field` and `populate_courant_fields`;
  - `eqsys.adjustments` (`apply_adjustments`);
  - `copy`, `fill_with_nans` and `data`;
  - the grid's `rng_sclr` and `rng_vctr`.

  The storage ranges are assumed to be the owned range widened by the halo on every axis.
- `advect` is left out. It only dispatches to `op_1D` and `op`, which are modelled;
  the 3-D splitting lives in code that is not part of this model.
- `integ_loop` is left out: it is only `assert(false)`.
- `p_half` and `m_half` are grid constants whose definitions are not visible. The
  model fixes the convention that `cx[i]` is face i + 1/2 and `cx[Prev(i)]` is
  face i - 1/2.
- Multi-subdomain neighbour exchange is not modelled. `nghbr_data` is the field itself
  (a self-neighbour periodic domain [0, n) per axis), and `hook_neighbour` is not modelled.
- The Q-array allocation loop (src/slv_serial.cpp:93-113) is not replicated. It
  increments `xyz` instead of `g`, and its `if` has an empty body. `DiagnoseLevel`
  takes Q arrays of the right shape as input.
- `halo_sclr_max` is assigned rather than maximised (src/slv_serial.cpp:44), and the
  cache halo carries a TODO (src/slv_serial.cpp:117-118). Neither is modelled: they
  only size Q arrays and caches.
- Floating-point rounding is not modelled, and the `isfinite` assertions are dropped.
  The C++ `int` width is not modelled either: indices are unbounded.
- `update_courants` begins by asserting that the velocity is not constant; that check
  is left out. The routine applies the same diagnosis to levels nm0 and nm1;
  `DiagnoseLevel` models one level and would be applied to each.
- `op_1D` has only the normal-gradient term in its antidiffusive velocity, and no
  check that the pass lies in 1..iord: every step other than 1 takes the antidiffusive
  branch (src/adv_mpdata.hpp:30-56). The model does the same.
- The Courant number of `op_1D` is a single scalar, as in the source.
- `explicit_part` is called by the solver with `(R, aux, psi, dt)` but declared by the
  oscillator with `(R, psi)`. The model uses `(R, psi)`. The base class `rhs` that
  would route the first call to the second is not part of this model, so
  `HarmonicOscillator.Forcings`, `Tendencies`, `ForcingStepScales` and `ForcingStepDamps`
  assume that dispatch (src/slv_serial.cpp:317, src/eqs_harmonic_oscillator.hpp:41).
- `sdm::rng`, `lognormal`, `modulo` and `divide_by_constant` are left out. They use
  the Thrust RNG, transcendental `phc` functions, `fmod`, and float-to-int casts.
- Command-line handling (`icicle.cpp`, `opts_lgrngn.hpp`), the test and plot
  programs, `mdl_dbl.cpp` and `eqs_todo_mm.hpp` are left out. They are plumbing,
  output, a one-line wrapper, and declarations only.
- SlvSerial.ApplyForcings: requires `1 - dt C != 0`. The source would divide by zero
  and produce a non-finite field. `HarmonicOscillator.DivisorAtLeastOne` shows that
  the divisor is at least 1 for the oscillator.
- SlvSerial.FillHalos: requires every halo to fit its axis (or the axis to be
  degenerate). This is what the constructor's sanity check guarantees when the
  subdomain is the whole periodic domain.
- SlvSerialOld.FillLevel: requires halo <= extent on every axis. This revision has no
  sanity check; wider halos read outside the owned cells, as
  `Halo.WideHaloLeavesOwnedRange` shows.
- SlvSerial.StashCycle: requires a dynamic variable, which the source asserts.
- Leapfrog.Op: requires step == 1, which the source asserts.
- HarmonicOscillator.AsRhsTerm: makes the explicit part total by leaving R unchanged
  when `eqid` or the array shapes do not match. In the source such a call is
  undefined behaviour, and the solver never makes one.
- SdmFunctors.Count: takes k >= 0 only. A negative order makes `pow` infinite at zero
  radius, which `real` cannot represent.
- SlvSerial.FillHalosHelper: states the periodic image only for slabs starting at or
  above -mod. Below that, C++'s `%` yields a negative source start. The solver only
  calls it with lo = -halo >= -mod or lo = mod.
- The default arguments `iord = 2` of `adv_mpdata` and `scl = 1` of the device
  functors are not separate operations. They are the calls `Schemes.DefaultMpdata`
  makes and the `1.0` factors of `SdmFunctors.DefaultScaleRoundTrip`.
- SdmFunctors.CopyToDevice: requires n > 0, as do `CopyFromDevice` and the unravel
  functions. The source divides by n; n is a grid extent.
