/** Shared result types: the exceptions the services throw become error values. */
module Common {

  datatype Option<+T> = None | Some(value: T)

  /** The exception classes the services raise. `Database` stands for a write
      the document store refuses (a duplicate `_id`). */
  datatype Error =
    | ArgumentException(message: string)
    | InvalidOperationException(message: string)
    | Database(message: string)

  datatype Result<+T> = Ok(value: T) | Err(error: Error)

  /** What a controller action answers with (HTTP 200, 404, 400, 500). */
  datatype ActionResult<+T> =
    | OkObject(value: T)
    | NotFound(message: string)
    | BadRequest(message: string)
    | ServerError(message: string)
}
