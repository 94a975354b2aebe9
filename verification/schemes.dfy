/** The advection schemes and the traits the solver sizes its storage from
    (adv_mpdata and adv_leapfrog). */
module Schemes {
  import opened Outcomes

  datatype Scheme = Mpdata(iord: int) | Leapfrog {
    /** Both stencils read the cells i-1, i and i+1. */
    function StencilExtent(): int { 3 }

    function TimeLevels(): int {
      match this
      case Mpdata(_) => 2
      case Leapfrog => 3
    }

    /** Passes per time step: iord corrective passes for MPDATA, one for leapfrog. */
    function NumSteps(): int {
      match this
      case Mpdata(iord) => iord
      case Leapfrog => 1
    }

    predicate Valid() {
      Mpdata? ==> iord > 0
    }
  }

  /** adv_mpdata(iord): the constructor asserts iord > 0. */
  function NewMpdata(iord: int): (r: Result<Scheme>)
    ensures r.Ok? <==> iord > 0
    ensures r.Ok? ==> r.value.Valid() && r.value.NumSteps() == iord && r.value.TimeLevels() == 2
    ensures r.Err? ==> r.error == NonPositiveIord(iord)
  {
    if iord > 0 then Ok(Mpdata(iord)) else Err(NonPositiveIord(iord))
  }

  /** adv_mpdata() with the default iord = 2: a valid two-pass scheme. */
  function DefaultMpdata(): (r: Result<Scheme>)
    ensures r.Ok? && r.value.Valid() && r.value.NumSteps() == 2 && r.value.TimeLevels() == 2
  {
    NewMpdata(2)
  }
}
