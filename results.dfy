/**
 * The values a service hands back to its caller.  Every service either
 * returns normally or throws an `AppError` carrying a fixed message; the
 * model returns that error as a value instead of throwing it.
 */
module Results {

  /** The application's domain error, reduced to the message it carries. */
  datatype AppError = AppError(message: string)

  /** What a service that returns a value produces: the value, or the error it threw. */
  datatype Result<T> = Ok(value: T) | Err(error: AppError)

  /** What a service that returns nothing (`Promise<void>`) produces. */
  datatype Outcome = Done | Failed(error: AppError)

  datatype Option<T> = None | Some(value: T)
}
