/** Shared result types of the chain-ladder engine. */
module Common {

  datatype Option<+T> = None | Some(value: T)

  datatype Result<+T, +E> = Ok(value: T) | Err(error: E)

  /** The ways the engine can fail: a label that `int()` cannot read (a Python
      ValueError); a cohort label that the matrix repeats, so that a cell
      lookup yields a Series whose truth value is ambiguous (a ValueError); no
      observation at all, so that the pivot finds no `cohorte` column (a
      KeyError); a cohort the pivot does not hold (the message that
      `project_cohort` returns); and a cohort row without any value
      (`int(NaN)` raises in `project_cohort`). */
  datatype Error =
    | MalformedLabel(text: string)
    | AmbiguousCell(repeated: string)
    | EmptyFrame
    | CohortNotFound(message: string)
    | NoObservations(cohort: string)
}
