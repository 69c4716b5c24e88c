/** Failure-carrying results used where the Python code raises (an index
    error, a missing dictionary key) or never returns (a sampling loop). */
module Outcomes {

  datatype Option<+T> = None | Some(value: T)
}
