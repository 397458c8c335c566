/** Result and error values shared by the modules of the first-order system model. */
module Outcomes {

  datatype Option<+T> = None | Some(value: T)

  datatype Result<+T, +E> = Success(value: T) | Failure(error: E)

  /** The conditions that make the C code call g_error or fail a g_assert: the
      process aborts, nothing is retried. */
  datatype Fatal =
    | TooManyRecursionLevels   // solve_deps entered with r > 9
    | UnknownPlaceholder       // a negative code outside the eight known ones
    | GravityAsComponent       // add_comp given a gravitation object
    | IdOutOfRange(id: int)    // add_comp given an id outside [0, len)

  /** What a registry operation did. */
  datatype Status =
    | Done                     // the operation ran (and rebuilt when it should)
    | Ignored                  // add_comp: the slot was already taken, a warning is logged
    | Aborted(reason: Fatal)   // the process would abort here
}
