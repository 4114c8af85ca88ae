/** What a request handler produces: the database after the request, the HTTP reply, and the socket emissions it made. */
module Api {
  import opened Store
  import opened Realtime
  import opened Validation

  datatype Reply<T> =
    | Success(code: nat, message: string, value: T)
    | Failure(code: nat, message: string, errors: seq<FieldError>)

  datatype Step<T> = Step(db: Db, reply: Reply<T>, emitted: seq<Emission>)

  /** A request turned away before it changed anything. */
  function Refuse<T>(db: Db, code: nat, message: string): (s: Step<T>)
    ensures s.db == db && s.emitted == [] && s.reply == Failure(code, message, [])
  {
    Step(db, Failure(code, message, []), [])
  }

  /** `handleValidationErrors` turning a request away. */
  function Invalid<T>(db: Db, errors: seq<FieldError>): (s: Step<T>)
    ensures s.db == db && s.emitted == [] && s.reply == Failure(400, "Validation failed", errors)
  {
    Step(db, Failure(400, "Validation failed", errors), [])
  }
}
