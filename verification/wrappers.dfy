/** Result shapes shared by every module of the model. */
module Wrappers {

  datatype Option<+T> = None | Some(value: T)

  /** The gRPC status codes an RPC of the driver can answer with. A plain Go error, which carries
      no status, reaches the caller as `Unknown`. */
  datatype Code =
    | InvalidArgument
    | AlreadyExists
    | Internal
    | Unimplemented
    | Unknown

  datatype Result<+T> = Ok(value: T) | Err(code: Code)
}
