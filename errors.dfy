/** Error codes and the failure-compatible wrappers shared by every module.
    `Errc` mirrors the client's `errc` enumeration plus the two external
    sources of errors: a server error packet and the transport. */
module Errors {

  datatype Errc =
    | IncompleteMessage      // fewer bytes than a field needs
    | ExtraBytes             // bytes left over after a whole message
    | ProtocolValueError     // a field holds a value the protocol forbids
    | WrongNumParams         // prepared statement given a wrong parameter count
    | BadVariantAccess       // value::get<T> on a value not convertible to T
    | ServerError(code: nat) // code carried by a server error packet
    | TransportError(code: nat)
    | EndOfStream            // the transport has no more packets to deliver

  datatype Option<+T> = None | Some(value: T) {
    function GetOr(default: T): T {
      match this
      case Some(v) => v
      case None => default
    }
  }

  datatype Result<+T> = Ok(value: T) | Err(error: Errc) {
    predicate IsFailure() { Err? }

    function PropagateFailure<U>(): Result<U>
      requires Err?
    {
      Err(error)
    }

    function Extract(): T
      requires Ok?
    {
      value
    }
  }
}
