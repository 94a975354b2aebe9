/** The one-dimensional MPDATA operator adv_mpdata::op_1D on one periodic row:
    pass 1 is the donor-cell (upwind) scheme driven by the Courant number, and
    every later pass repeats it with an antidiffusive pseudo-velocity computed
    from the field itself. Only level n+1 is written. */
module Mpdata {
  import opened Periodic

  function Abs(x: real): real {
    if x < 0.0 then -x else x
  }

  /** The donor-cell flux macro F(l, r, U) as the source writes it,
      .5 (U + |U|) l + .5 (U - |U|) r, with sqrt(U*U) read as |U|. */
  function Flux(l: real, r: real, u: real): (f: real)
    ensures u >= 0.0 ==> f == u * l
    ensures u < 0.0 ==> f == u * r
  {
    0.5 * (u + Abs(u)) * l + 0.5 * (u - Abs(u)) * r
  }

  /** The antidiffusive pseudo-velocity at the face between l and r, with the
      source's guard: zero unless l + r is strictly positive. */
  function AntidiffusiveVelocity(l: real, r: real, c: real): (v: real)
    ensures l + r <= 0.0 ==> v == 0.0
    ensures l == r ==> v == 0.0
  {
    if r + l > 0.0 then (Abs(c) - c * c) * (r - l) / (r + l) else 0.0
  }

  /** The velocity pass `step` uses at a face: the Courant number itself in pass 1,
      the antidiffusive velocity in every other pass (the switch has no range check). */
  function FaceVelocity(l: real, r: real, c: real, step: int): real {
    if step == 1 then c else AntidiffusiveVelocity(l, r, c)
  }

  /** The flux pass `step` moves through the right face (i + 1/2) of cell i. */
  function FaceFlux(cur: seq<real>, c: real, step: int, i: int): real
    requires 0 <= i < |cur|
  {
    var r := cur[Next(i, |cur|)];
    Flux(cur[i], r, FaceVelocity(cur[i], r, c, step))
  }

  /** The decrement the source subtracts from psi[n+1](i): the flux through the
      right face minus the flux through the left face, each evaluated from its
      own pair of neighbours exactly as written. */
  function Decrement(cur: seq<real>, c: real, step: int, i: int): real
    requires 0 <= i < |cur|
  {
    var n := |cur|;
    var l := cur[Prev(i, n)];
    var r := cur[Next(i, n)];
    Flux(cur[i], r, FaceVelocity(cur[i], r, c, step)) - Flux(l, cur[i], FaceVelocity(l, cur[i], c, step))
  }

  /** The row a pass leaves in psi[n+1]: each cell minus its decrement. */
  function PassRow(cur: seq<real>, next: seq<real>, c: real, step: int): (r: seq<real>)
    requires |next| == |cur|
    ensures |r| == |next|
    ensures forall i :: 0 <= i < |r| ==> r[i] == next[i] - Decrement(cur, c, step, i)
  {
    seq(|cur|, i requires 0 <= i < |cur| => next[i] - Decrement(cur, c, step, i))
  }

  /** One pass over the row: psi[n+1] -= Decrement, reading psi[n] only. */
  function Pass(cur: seq<real>, next: seq<real>, c: real, step: int): (r: seq<real>)
    requires |next| == |cur|
    ensures |r| == |next|
    ensures forall i :: 0 <= i < |r| ==>
      r[i] == next[i] - (FaceFlux(cur, c, step, i) - FaceFlux(cur, c, step, Prev(i, |cur|)))
    ensures Sum(r) == Sum(next)
    ensures (forall i :: 0 <= i < |cur| ==> cur[i] == 0.0) ==> r == next
  {
    DecrementIsFaceDifference(cur, c, step);
    PassConserves(cur, next, c, step);
    ZeroRowMovesNothing(cur, next, c, step);
    PassRow(cur, next, c, step)
  }

  /** Each cell's decrement is the flux through its right face minus the flux
      through its left face: both are the same face flux seen from either side. */
  lemma DecrementIsFaceDifference(cur: seq<real>, c: real, step: int)
    ensures forall i :: 0 <= i < |cur| ==>
      Decrement(cur, c, step, i) == FaceFlux(cur, c, step, i) - FaceFlux(cur, c, step, Prev(i, |cur|))
  {
    forall i | 0 <= i < |cur|
      ensures Decrement(cur, c, step, i) == FaceFlux(cur, c, step, i) - FaceFlux(cur, c, step, Prev(i, |cur|))
    {
      NextOfPrev(i, |cur|);
    }
  }

  /** The decrements telescope around the periodic row, so a pass keeps the total. */
  lemma {:induction false} PassConserves(cur: seq<real>, next: seq<real>, c: real, step: int)
    requires |next| == |cur|
    ensures Sum(PassRow(cur, next, c, step)) == Sum(next)
  {
    var n := |cur|;
    DecrementIsFaceDifference(cur, c, step);
    var phi := seq(n, i requires 0 <= i < n => FaceFlux(cur, c, step, i));
    var d := seq(n, i requires 0 <= i < n => Decrement(cur, c, step, i));
    Telescope(phi, d);
    SumSub(next, d, PassRow(cur, next, c, step));
  }

  /** A row of zeros has zero flux through every face, whatever the velocity,
      so the pass leaves psi[n+1] as it was. */
  lemma ZeroRowMovesNothing(cur: seq<real>, next: seq<real>, c: real, step: int)
    requires |next| == |cur|
    ensures (forall i :: 0 <= i < |cur| ==> cur[i] == 0.0) ==> PassRow(cur, next, c, step) == next
  {
    if forall i :: 0 <= i < |cur| ==> cur[i] == 0.0 {
      var r := PassRow(cur, next, c, step);
      forall i | 0 <= i < |cur|
        ensures r[i] == next[i]
      {
        var n := |cur|;
        var lv, rv := cur[Prev(i, n)], cur[Next(i, n)];
        assert Flux(cur[i], rv, FaceVelocity(cur[i], rv, c, step)) == 0.0;
        assert Flux(lv, cur[i], FaceVelocity(lv, cur[i], c, step)) == 0.0;
      }
      assert r == next;
    }
  }

  /** adv_mpdata::op_1D: level n+1 receives pass `step`; every other level is untouched. */
  function Op1D(psi: seq<seq<real>>, n: nat, c: real, step: int): (r: seq<seq<real>>)
    requires n + 1 < |psi|
    requires |psi[n + 1]| == |psi[n]|
    ensures |r| == |psi|
    ensures forall l :: 0 <= l < |psi| && l != n + 1 ==> r[l] == psi[l]
    ensures |r[n + 1]| == |psi[n + 1]|
    ensures forall i :: 0 <= i < |psi[n]| ==>
      r[n + 1][i] == psi[n + 1][i] - (FaceFlux(psi[n], c, step, i) - FaceFlux(psi[n], c, step, Prev(i, |psi[n]|)))
    ensures Sum(r[n + 1]) == Sum(psi[n + 1])
    ensures (forall i :: 0 <= i < |psi[n]| ==> psi[n][i] == 0.0) ==> r[n + 1] == psi[n + 1]
  {
    psi[n + 1 := Pass(psi[n], psi[n + 1], c, step)]
  }

  lemma MulNonNeg(a: real, b: real)
    requires a >= 0.0 && b >= 0.0
    ensures a * b >= 0.0
  {
  }

  /** A factor in [-1, 1] does not enlarge a non-negative coefficient. */
  lemma ScaledBound(k: real, q: real)
    requires k >= 0.0
    requires -1.0 <= q <= 1.0
    ensures Abs(k * q) <= k
  {
    MulNonNeg(k, 1.0 - q);
    MulNonNeg(k, 1.0 + q);
  }

  /** A factor whose product with a positive value is non-negative is non-negative. */
  lemma NonNegFactor(a: real, s: real)
    requires s > 0.0 && a * s >= 0.0
    ensures a >= 0.0
  {
    assert a == (a * s) / s;
  }

  /** A difference of non-negative values is at most their sum in magnitude. */
  lemma NormalisedGradientBound(l: real, r: real)
    requires l >= 0.0 && r >= 0.0 && r + l > 0.0
    ensures -1.0 <= (r - l) / (r + l) <= 1.0
  {
    var s := r + l;
    var q := (r - l) / s;
    assert q * s == r - l;
    assert (1.0 - q) * s == 2.0 * l;
    assert (1.0 + q) * s == 2.0 * r;
    NonNegFactor(1.0 - q, s);
    NonNegFactor(1.0 + q, s);
  }

  /** The antidiffusive coefficient |C| - C^2 is non-negative when |C| <= 1. */
  lemma CoefficientNonNeg(c: real)
    requires Abs(c) <= 1.0
    ensures 0.0 <= Abs(c) - c * c
  {
    var a := Abs(c);
    assert c * c == a * a;
    MulNonNeg(a, 1.0 - a);
    assert a * (1.0 - a) == a - a * a;
  }

  /** Dividing a product divides its second factor. */
  lemma MulDivAssoc(k: real, a: real, s: real)
    requires s != 0.0
    ensures k * a / s == k * (a / s)
  {
    var q := a / s;
    assert q * s == a;
    assert k * a == (k * q) * s;
  }

  /** Where the guard passes, the antidiffusive velocity is the coefficient
      |C| - C^2 times the normalised gradient (r - l) / (r + l). */
  lemma GuardedVelocityFactors(l: real, r: real, c: real)
    requires r + l > 0.0
    ensures AntidiffusiveVelocity(l, r, c) == (Abs(c) - c * c) * ((r - l) / (r + l))
  {
    MulDivAssoc(Abs(c) - c * c, r - l, r + l);
  }

  /** A value that is a non-negative coefficient times a factor in [-1, 1] is
      at most the coefficient in magnitude. */
  lemma ProductBound(v: real, k: real, q: real)
    requires v == k * q && k >= 0.0 && -1.0 <= q <= 1.0
    ensures Abs(v) <= k
  {
    ScaledBound(k, q);
  }

  /** For a non-negative field and |C| <= 1 the antidiffusive velocity is bounded
      by |C| - C^2, the coefficient of the normalised gradient. */
  lemma AntidiffusiveBound(l: real, r: real, c: real)
    requires l >= 0.0 && r >= 0.0
    requires Abs(c) <= 1.0
    ensures 0.0 <= Abs(c) - c * c
    ensures Abs(AntidiffusiveVelocity(l, r, c)) <= Abs(c) - c * c
  {
    CoefficientNonNeg(c);
    if r + l > 0.0 {
      NormalisedGradientBound(l, r);
      GuardedVelocityFactors(l, r, c);
      ProductBound(AntidiffusiveVelocity(l, r, c), Abs(c) - c * c, (r - l) / (r + l));
    }
  }

  /** One cell of pass 1 with level n+1 starting as a copy of level n: the cell
      keeps a (1 - |C|) share of itself and gains |C| of its upwind neighbour. */
  lemma DonorCellCell(p: real, x: real, q: real, c: real)
    requires p >= 0.0 && x >= 0.0 && q >= 0.0
    requires Abs(c) <= 1.0
    ensures x - (Flux(x, q, c) - Flux(p, x, c)) >= 0.0
  {
    if c >= 0.0 {
      assert x - (Flux(x, q, c) - Flux(p, x, c)) == (1.0 - c) * x + c * p;
      MulNonNeg(1.0 - c, x);
      MulNonNeg(c, p);
    } else {
      assert x - (Flux(x, q, c) - Flux(p, x, c)) == (1.0 + c) * x + (-c) * q;
      MulNonNeg(1.0 + c, x);
      MulNonNeg(-c, q);
    }
  }

  /** Donor-cell positivity: when level n+1 starts as a copy of a non-negative
      level n and |C| <= 1, pass 1 leaves every cell non-negative. */
  lemma DonorCellKeepsSign(cur: seq<real>, c: real)
    requires forall i :: 0 <= i < |cur| ==> cur[i] >= 0.0
    requires Abs(c) <= 1.0
    ensures forall i :: 0 <= i < |cur| ==> Pass(cur, cur, c, 1)[i] >= 0.0
  {
    var n := |cur|;
    var r := Pass(cur, cur, c, 1);
    forall i | 0 <= i < n
      ensures r[i] >= 0.0
    {
      var p := cur[Prev(i, n)];
      var q := cur[Next(i, n)];
      NextOfPrev(i, n);
      assert r[i] == cur[i] - (Flux(cur[i], q, c) - Flux(p, cur[i], c));
      DonorCellCell(p, cur[i], q, c);
    }
  }

  /** With iord = 1 MPDATA is the plain upwind scheme: the face flux of pass 1 is
      the Courant number times the upwind cell. */
  lemma FirstPassIsUpwind(cur: seq<real>, c: real, i: int)
    requires 0 <= i < |cur|
    ensures FaceFlux(cur, c, 1, i) == (if c >= 0.0 then c * cur[i] else c * cur[Next(i, |cur|)])
  {
  }
}
