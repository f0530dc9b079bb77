/** The uniform outcome of a check. */
module Results {
  /** `Unset` is the zero value that a lookup of a missing key gives. */
  datatype Status = Good | Warn | Bad | Info | NA | Unset

  datatype Result = Result(value: string, status: Status)

  function OkResult(v: string): Result { Result(v, Good) }
  function BadResult(v: string): Result { Result(v, Bad) }
  function WarnResult(v: string): Result { Result(v, Warn) }
  function InfoResult(v: string): Result { Result(v, Info) }
  function NaResult(v: string): Result { Result(v, NA) }

  /** A check that could not run. */
  function ErrResult(check: string): Result { Result("error checking " + check, Bad) }
}
