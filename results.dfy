/** Optional values, the engine's error kinds, and results that carry either. */
module Results {

  datatype Option<+T> = None | Some(value: T)

  /** The errors the engine raises: an unknown time unit, advancing with no
      registered meter, and registering a meter identifier twice. */
  datatype Error = InvalidUnit | NoAccounts | DuplicateMeter

  datatype Result<+T> = Ok(value: T) | Err(error: Error)
}
