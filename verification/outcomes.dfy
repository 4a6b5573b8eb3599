/**
 Failure-carrying datatypes shared by the register model.

 Every failure of the register file is an assertion (or a dictionary lookup)
 in the simulator: the offending call stops and the simulation run is
 abandoned. The model turns each of them into an `Err` value naming the
 cause, so that the happy path and the error path are both visible in the
 contracts.
 */
module Outcomes {

  /** An optional value: the pending value of a register is absent when no
      write is queued in the current cycle. */
  datatype Option<+T> = None | Some(value: T) {

    /** The value if present, otherwise `default`. */
    function GetOr(default: T): T {
      match this
      case Some(v) => v
      case None => default
    }
  }

  /** Why a register-file operation was refused. */
  datatype Error =
    | IndexOutOfRange     // an index outside 0..17 reached an index assertion
    | NoSuchRegister      // a pending index missing from the index table (a failed lookup)
    | LaneOutOfRange      // a 32-bit lane index outside 0..7
    | ValueOutOfRange     // a value that does not fit the register or the lane
    | CounterSaturated    // increment of a counter already at 2^32 - 1

  /** Either a successful result or the reason for the refusal. */
  datatype Result<+T> = Ok(value: T) | Err(error: Error)
}
