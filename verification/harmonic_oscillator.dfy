/** The harmonic-oscillator equation system (eqs_harmonic_oscillator): two
    advected variables psi and phi coupled by restoring forces,
    dpsi/dt = omega phi and dphi/dt = -omega psi, with the restoring force
    treated semi-implicitly by the solver. Frequencies and times are plain
    numbers in units of 1/s and s. */
module HarmonicOscillator {
  import SlvSerial

  /** restoring_force: omega_signed = sign * omega, reading variable eqid. */
  datatype RestoringForce = RestoringForce(omegaSigned: real, eqid: nat)

  function NewRestoringForce(omega: real, sign: real, eqid: nat): RestoringForce {
    RestoringForce(sign * omega, eqid)
  }

  /** explicit_part: R += omega_signed * psi[eqid] over R's cells. */
  function ExplicitPart(f: RestoringForce, R: seq<real>, psi: seq<seq<real>>): (r: seq<real>)
    requires f.eqid < |psi| && |psi[f.eqid]| == |R|
    ensures |r| == |R|
    ensures forall i :: 0 <= i < |R| ==> r[i] - R[i] == f.omegaSigned * psi[f.eqid][i]
    ensures forall i :: 0 <= i < |R| && psi[f.eqid][i] == 0.0 ==> r[i] == R[i]
  {
    seq(|R|, i requires 0 <= i < |R| => R[i] + f.omegaSigned * psi[f.eqid][i])
  }

  /** implicit_part(dt) = -dt * omega_signed^2: never positive for dt >= 0,
      whatever the sign of the force. */
  function ImplicitPart(f: RestoringForce, dt: real): (c: real)
    ensures dt >= 0.0 ==> c <= 0.0
    ensures c == 0.0 <==> dt == 0.0 || f.omegaSigned == 0.0
  {
    SquareNonNeg(f.omegaSigned);
    ProductZero(dt, f.omegaSigned * f.omegaSigned);
    ProductZero(f.omegaSigned, f.omegaSigned);
    if dt >= 0.0 then ProductNonNeg(dt, f.omegaSigned * f.omegaSigned); -(dt * (f.omegaSigned * f.omegaSigned))
    else -(dt * (f.omegaSigned * f.omegaSigned))
  }

  lemma SquareNonNeg(x: real)
    ensures x * x >= 0.0
  {
    if x < 0.0 {
      assert x * x == (-x) * (-x);
    }
  }

  lemma ProductNonNeg(a: real, b: real)
    requires a >= 0.0 && b >= 0.0
    ensures a * b >= 0.0
  {
  }

  lemma ProductZero(a: real, b: real)
    ensures a * b == 0.0 <==> a == 0.0 || b == 0.0
  {
  }

  /** The sign of the force does not enter the implicit coefficient. */
  lemma ImplicitPartSignFree(omega: real, dt: real, e1: nat, e2: nat)
    ensures ImplicitPart(NewRestoringForce(omega, 1.0, e1), dt) == ImplicitPart(NewRestoringForce(omega, -1.0, e2), dt)
  {
    assert (-1.0 * omega) * (-1.0 * omega) == omega * omega;
  }

  /** A generic equation entry (gte): name, description, unit, right-hand side. */
  datatype Equation = Equation(name: string, description: string, unit: string, terms: seq<RestoringForce>)

  /** The constructor's system: psi forced by +omega phi, phi by -omega psi. */
  function System(omega: real): seq<Equation> {
    [ Equation("psi", "1st variable", "dimensionless", [NewRestoringForce(omega, 1.0, 1)]),
      Equation("phi", "2nd variable", "dimensionless", [NewRestoringForce(omega, -1.0, 0)]) ]
  }

  /** A restoring force as the solver sees it. The solver always passes the
      full set of fields, so the shape guard only makes the term total. */
  function AsRhsTerm(f: RestoringForce): SlvSerial.RhsTerm {
    SlvSerial.RhsTerm(
      (R: seq<real>, psi: seq<seq<real>>) =>
        if f.eqid < |psi| && |psi[f.eqid]| == |R| then ExplicitPart(f, R, psi) else R,
      (dt: real) => ImplicitPart(f, dt))
  }

  /** An equation as the solver sees it (no diagnosed velocity depends on it). */
  function AsVar(eq: Equation): SlvSerial.Var {
    SlvSerial.Var(eq.name, false, seq(|eq.terms|, i requires 0 <= i < |eq.terms| => AsRhsTerm(eq.terms[i])))
  }

  function Vars(omega: real): (vs: seq<SlvSerial.Var>)
    ensures |vs| == 2 && !vs[0].IsHomogeneous() && !vs[1].IsHomogeneous()
  {
    [AsVar(System(omega)[0]), AsVar(System(omega)[1])]
  }

  /** Each equation has one restoring force, and each force reads the other
      variable, with opposite signs. */
  lemma SystemCouplesPsiAndPhi(omega: real)
    ensures |System(omega)| == 2
    ensures System(omega)[0].name == "psi" && System(omega)[1].name == "phi"
    ensures |System(omega)[0].terms| == 1 && |System(omega)[1].terms| == 1
    ensures System(omega)[0].terms[0].eqid == 1 && System(omega)[1].terms[0].eqid == 0
    ensures System(omega)[0].terms[0].omegaSigned == -System(omega)[1].terms[0].omegaSigned == omega
  {
  }

  /** update_forcings on the oscillator: R_psi = omega phi and R_phi = -omega psi,
      whatever R held before. */
  function Forcings(omega: real, psi: seq<real>, phi: seq<real>, rhsR: seq<seq<real>>): (R: seq<seq<real>>)
    requires |psi| == |phi|
    requires |rhsR| == 2 && |rhsR[0]| == |psi| && |rhsR[1]| == |psi|
    ensures |R| == 2 && |R[0]| == |psi| && |R[1]| == |psi|
    ensures forall i :: 0 <= i < |psi| ==> R[0][i] == omega * phi[i] && R[1][i] == -omega * psi[i]
  {
    Tendencies(omega, psi, phi, rhsR);
    SlvSerial.UpdateForcings(Vars(omega), [psi, phi], rhsR)
  }

  lemma Tendencies(omega: real, psi: seq<real>, phi: seq<real>, rhsR: seq<seq<real>>)
    requires |psi| == |phi|
    requires |rhsR| == 2 && |rhsR[0]| == |psi| && |rhsR[1]| == |psi|
    ensures var R := SlvSerial.UpdateForcings(Vars(omega), [psi, phi], rhsR);
      |R[0]| == |psi| && |R[1]| == |psi|
      && (forall i :: 0 <= i < |psi| ==> R[0][i] == omega * phi[i] && R[1][i] == -omega * psi[i])
  {
    var vs := Vars(omega);
    var psiN := [psi, phi];
    var R := SlvSerial.UpdateForcings(vs, psiN, rhsR);
    var z := SlvSerial.Zeros(|psi|);
    var f0, f1 := NewRestoringForce(omega, 1.0, 1), NewRestoringForce(omega, -1.0, 0);
    assert vs[0].rhsTerms == [AsRhsTerm(f0)];
    assert vs[1].rhsTerms == [AsRhsTerm(f1)];
    assert R[0] == SlvSerial.Accumulate([AsRhsTerm(f0)], z, psiN);
    assert R[1] == SlvSerial.Accumulate([AsRhsTerm(f1)], z, psiN);
    assert [AsRhsTerm(f0)][1..] == [];
    assert [AsRhsTerm(f1)][1..] == [];
    assert R[0] == AsRhsTerm(f0).explicitPart(z, psiN) == ExplicitPart(f0, z, psiN);
    assert R[1] == AsRhsTerm(f1).explicitPart(z, psiN) == ExplicitPart(f1, z, psiN);
  }

  /** The restoring forces exchange energy between psi and phi without
      creating any: psi R_psi + phi R_phi = 0 in every cell. */
  lemma TendenciesConserveEnergy(omega: real, psi: seq<real>, phi: seq<real>, rhsR: seq<seq<real>>)
    requires |psi| == |phi|
    requires |rhsR| == 2 && |rhsR[0]| == |psi| && |rhsR[1]| == |psi|
    ensures var R := Forcings(omega, psi, phi, rhsR);
      forall i :: 0 <= i < |psi| ==> psi[i] * R[0][i] + phi[i] * R[1][i] == 0.0
  {
    var R := Forcings(omega, psi, phi, rhsR);
    forall i | 0 <= i < |psi|
      ensures psi[i] * R[0][i] + phi[i] * R[1][i] == 0.0
    {
      assert psi[i] * (omega * phi[i]) == phi[i] * (omega * psi[i]);
    }
  }

  /** The divisor 1 - dt C of both equations is 1 + (omega dt)^2, at least one,
      so apply_forcings never divides by zero for this system. */
  lemma DivisorAtLeastOne(omega: real, dt: real, e: int)
    requires 0 <= e < 2
    ensures 1.0 - dt * SlvSerial.ImplicitSum(Vars(omega)[e].rhsTerms, dt) == 1.0 + (omega * dt) * (omega * dt)
    ensures 1.0 - dt * SlvSerial.ImplicitSum(Vars(omega)[e].rhsTerms, dt) >= 1.0
  {
    var vs := Vars(omega);
    var sign := if e == 0 then 1.0 else -1.0;
    var f := NewRestoringForce(omega, sign, 1 - e);
    assert vs[e].rhsTerms == [AsRhsTerm(f)];
    assert SlvSerial.ImplicitSum(vs[e].rhsTerms, dt) == ImplicitPart(f, dt) + SlvSerial.ImplicitSum([], dt);
    assert f.omegaSigned * f.omegaSigned == omega * omega;
    assert dt * -(dt * (omega * omega)) == -((omega * dt) * (omega * dt));
    SquareNonNeg(omega * dt);
  }

  /** apply_forcings on equation e of the oscillator, whose divisor is at least one. */
  function ApplyOne(omega: real, dt: real, e: int, x: seq<real>, Re: seq<real>): (p: seq<real>)
    requires 0 <= e < 2 && |Re| == |x|
    ensures |p| == |x|
  {
    DivisorAtLeastOne(omega, dt, e);
    SlvSerial.ApplyForcings(Vars(omega)[e], x, Re, dt)
  }

  /** The solver's forcing step for the oscillator: update_forcings from the
      fields (psi, phi), then apply_forcings to both equations. It is always
      defined, because both divisors are at least one. */
  function ForcingStep(omega: real, dt: real, psi: seq<real>, phi: seq<real>, rhsR: seq<seq<real>>): (r: (seq<real>, seq<real>))
    requires |psi| == |phi|
    requires |rhsR| == 2 && |rhsR[0]| == |psi| && |rhsR[1]| == |psi|
    ensures |r.0| == |psi| && |r.1| == |phi|
  {
    var R := Forcings(omega, psi, phi, rhsR);
    (ApplyOne(omega, dt, 0, psi, R[0]), ApplyOne(omega, dt, 1, phi, R[1]))
  }

  /** p is the update x + b y divided by 1 + a^2, cell by cell. */
  predicate Scaled(p: seq<real>, x: seq<real>, y: seq<real>, a: real, b: real) {
    |p| == |x| == |y| && forall i :: 0 <= i < |p| ==> p[i] * (1.0 + a * a) == x[i] + b * y[i]
  }

  /** The forcing step divides the explicit update
      (psi + omega dt phi, phi - omega dt psi) by 1 + (omega dt)^2. */
  lemma ForcingStepScales(omega: real, dt: real, psi: seq<real>, phi: seq<real>, rhsR: seq<seq<real>>)
    requires |psi| == |phi|
    requires |rhsR| == 2 && |rhsR[0]| == |psi| && |rhsR[1]| == |psi|
    ensures Scaled(ForcingStep(omega, dt, psi, phi, rhsR).0, psi, phi, omega * dt, omega * dt)
    ensures Scaled(ForcingStep(omega, dt, psi, phi, rhsR).1, phi, psi, omega * dt, -(omega * dt))
  {
    var R := Forcings(omega, psi, phi, rhsR);
    ApplyOneScales(omega, dt, 0, psi, phi, R[0], omega, omega * dt);
    NegatedProduct(omega, dt);
    ApplyOneScales(omega, dt, 1, phi, psi, R[1], -omega, -(omega * dt));
  }

  lemma NegatedProduct(a: real, b: real)
    ensures (-a) * b == -(a * b)
  {
  }

  /** Equation e with tendency w * other: apply_forcings scales the explicit
      update x + b y, where b = w dt. */
  lemma ApplyOneScales(omega: real, dt: real, e: int, x: seq<real>, y: seq<real>, Re: seq<real>, w: real, b: real)
    requires 0 <= e < 2 && |Re| == |x| == |y|
    requires forall i :: 0 <= i < |x| ==> Re[i] == w * y[i]
    requires b == w * dt
    ensures Scaled(ApplyOne(omega, dt, e, x, Re), x, y, omega * dt, b)
  {
    DivisorAtLeastOne(omega, dt, e);
    ScaledCells(Vars(omega)[e], x, y, Re, dt, omega, w, ApplyOne(omega, dt, e, x, Re));
  }

  /** apply_forcings on one equation whose tendency is w * other and whose
      coefficient is dt C = -(omega dt)^2. */
  lemma ScaledCells(v: SlvSerial.Var, x: seq<real>, y: seq<real>, Rv: seq<real>, dt: real, omega: real, w: real, p: seq<real>)
    requires !v.IsHomogeneous() && |Rv| == |x| == |y|
    requires 1.0 - dt * SlvSerial.ImplicitSum(v.rhsTerms, dt) == 1.0 + (omega * dt) * (omega * dt)
    requires 1.0 - dt * SlvSerial.ImplicitSum(v.rhsTerms, dt) >= 1.0
    requires forall i :: 0 <= i < |x| ==> Rv[i] == w * y[i]
    requires p == SlvSerial.ApplyForcings(v, x, Rv, dt)
    ensures Scaled(p, x, y, omega * dt, w * dt)
  {
    var a := omega * dt;
    var k := dt * SlvSerial.ImplicitSum(v.rhsTerms, dt);
    assert k == -(a * a);
    forall i | 0 <= i < |x|
      ensures p[i] * (1.0 + a * a) == x[i] + (w * dt) * y[i]
    {
      SemiImplicitCell(x[i], y[i], Rv[i], p[i], dt, w, k, a);
    }
  }

  /** A cell of the semi-implicit update with tendency w y and coefficient
      dt C = -a^2. */
  lemma SemiImplicitCell(x: real, y: real, rv: real, p: real, dt: real, w: real, k: real, a: real)
    requires rv == w * y
    requires k == -(a * a)
    requires p == x + dt * rv + k * p
    ensures p * (1.0 + a * a) == x + (w * dt) * y
  {
    assert dt * rv == (w * dt) * y;
  }

  /** The oscillator energy psi^2 + phi^2 of cell i. */
  function Energy(p: seq<real>, q: seq<real>, i: int): real
    requires 0 <= i < |p| && i < |q|
  {
    p[i] * p[i] + q[i] * q[i]
  }

  /** The forcing step never increases the energy psi^2 + phi^2 of a cell. */
  lemma ForcingStepDamps(omega: real, dt: real, psi: seq<real>, phi: seq<real>, rhsR: seq<seq<real>>, i: int)
    requires |psi| == |phi|
    requires |rhsR| == 2 && |rhsR[0]| == |psi| && |rhsR[1]| == |psi|
    requires 0 <= i < |psi|
    ensures Energy(ForcingStep(omega, dt, psi, phi, rhsR).0, ForcingStep(omega, dt, psi, phi, rhsR).1, i)
      <= Energy(psi, phi, i)
  {
    var r := ForcingStep(omega, dt, psi, phi, rhsR);
    ForcingStepScales(omega, dt, psi, phi, rhsR);
    ScaledPairShrinks(r.0, r.1, psi, phi, omega * dt, -(omega * dt), i);
  }

  lemma ScaledPairShrinks(p: seq<real>, q: seq<real>, x: seq<real>, y: seq<real>, a: real, b: real, i: int)
    requires Scaled(p, x, y, a, a) && Scaled(q, y, x, a, b) && b == -a
    requires 0 <= i < |p|
    ensures Energy(p, q, i) <= Energy(x, y, i)
  {
    RotationShrinks(x[i], y[i], a, b, p[i], q[i]);
  }

  /** (x + a y, y - a x) has squared length (1 + a^2)(x^2 + y^2); divided by
      1 + a^2 >= 1 it is no longer than (x, y). */
  lemma RotationShrinks(x: real, y: real, a: real, b: real, p: real, q: real)
    requires b == -a
    requires p * (1.0 + a * a) == x + a * y
    requires q * (1.0 + a * a) == y + b * x
    ensures p * p + q * q <= x * x + y * y
  {
    var s := 1.0 + a * a;
    SquareNonNeg(a);
    var e := p * p + q * q;
    RotationLength(x, y, a);
    assert (p * s) * (p * s) + (q * s) * (q * s) == s * (x * x + y * y);
    SquaresScale(p, q, s);
    CancelPositive(e * s, x * x + y * y, s);
    SquareNonNeg(p);
    SquareNonNeg(q);
    GrowByFactor(e, s);
  }

  /** |(x + a y, y - a x)|^2 == (1 + a^2) |(x, y)|^2. */
  lemma RotationLength(x: real, y: real, a: real)
    ensures (x + a * y) * (x + a * y) + (y - a * x) * (y - a * x) == (1.0 + a * a) * (x * x + y * y)
  {
  }

  /** Scaling both coordinates by s scales the squared length by s^2. */
  lemma SquaresScale(p: real, q: real, s: real)
    ensures (p * s) * (p * s) + (q * s) * (q * s) == (p * p + q * q) * s * s
  {
  }

  /** Cancelling a positive factor. */
  lemma CancelPositive(u: real, v: real, s: real)
    requires s > 0.0 && u * s == s * v
    ensures u == v
  {
    assert (u - v) * s == 0.0;
  }

  /** A non-negative value does not shrink when multiplied by a factor of at least one. */
  lemma GrowByFactor(e: real, s: real)
    requires e >= 0.0 && s >= 1.0
    ensures e <= e * s
  {
    assert e * s - e == e * (s - 1.0);
    ProductNonNeg(e, s - 1.0);
  }
}
