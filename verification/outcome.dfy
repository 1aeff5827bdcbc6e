/** Failure-carrying values shared by every service of the backend.

    Each service operation of the source either returns a value or throws an
    `Error`/`HttpException` whose message names what went wrong; the model
    returns `Err` with one constructor per distinct message instead.
 */
module Outcome {

  datatype Option<+T> = None | Some(value: T)

  /** One constructor per error message the services throw. */
  datatype Error =
    | ChildNotFound
    | LevelNotFound
    | LevelNeedsFiveWords(levelNumber: int)
    | SessionNotFound
    | SessionAlreadyCompleted
    | WordNotInSession
    | CosmeticNotFound
    | AlreadyOwned
    | NeedMorePoints(missing: int)
    | NotOwned
    | DuplicateLevelNumber

  datatype Result<+T> = Ok(value: T) | Err(error: Error)
}
