/** The exceptions the panel-state code raises, and the wrappers that carry them. */
module Outcomes {

  /** A Ruby exception, by class, with its message. `TransportError` stands
      for any exception `Net::HTTP.get` raises and keeps that class's name. */
  datatype Error =
    | ArgumentError(message: string)
    | NoMethodError(message: string)
    | TransportError(message: string, errorClass: string)

  /** A value, or the exception raised instead of returning it. */
  datatype Result<T> = Ok(value: T) | Err(error: Error)

  datatype Option<T> = None | Some(value: T)
}
