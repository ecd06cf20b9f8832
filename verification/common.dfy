/** Shared result types. The C++ ledger reports hard failures by throwing
    (std::logic_error / std::runtime_error) and ordinary absence by a null
    pointer; the model uses `Result` for the former and `Option` for the latter. */
module Common {

  /** A value that may be absent: the model of a `shared_ptr` that may be null. */
  datatype Option<+T> = None | Some(value: T)

  /** Either a value or the exception the C++ code would have thrown. */
  datatype Result<+T> = Success(value: T) | Failure(error: Error)

  /** The exceptions thrown by the ledger, one per distinct throw site. */
  datatype Error =
    | IdConflict        // add_client: every candidate id is taken
    | IdNotExist        // get_wallet: no account has this id
    | IllegalTrxFormat  // parse_trx: the string does not split into three fields
    | ValueNotDouble    // parse_trx: the third field does not read as a number
    | ClientsNotExist   // mine: a pending transfer names an unregistered id
}
