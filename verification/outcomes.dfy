/** Failure reporting shared by the solver, the schemes and the halo code.
    The source stops the run (error_macro or a failed assert) on each of these;
    the model returns the reason instead. */
module Outcomes {
  import Grid

  datatype Error =
    | NonPositiveIord(iord: int)
    | HaloExceedsDomain(axis: Grid.Axis, halo: int, len: int)
    | UnsupportedTimeLevels(levels: int)
    | FirstPowerNotOne(xyz: nat, pow: int)
    | UnsupportedPower(xyz: nat, pow: int)

  datatype Option<+T> = None | Some(value: T)

  datatype Result<+T> = Ok(value: T) | Err(error: Error) {
    predicate IsFailure() { Err? }

    function PropagateFailure<U>(): Result<U>
      requires Err?
    {
      Err(error)
    }

    function Extract(): T
      requires Ok?
    {
      value
    }
  }
}
