/** The outcome of one awaited call to the remote user endpoints. The calls
    themselves are network I/O and are not modelled: a handler receives the
    outcome as a parameter instead. */
module Remote {

  /** `Ok(value)`: the call resolved and `value` is the part of the response
      the handler reads (the page of records for a read, the assigned id for
      a create, nothing for an update or a delete). `Failed`: the call threw
      (network error or non-success status, handled alike), so control went
      to the `catch` and the list setter was skipped. A call that resolves
      with a body lacking the expected field is outside this model. */
  datatype Reply<+T> = Ok(value: T) | Failed
}
