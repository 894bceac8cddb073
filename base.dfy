/** Option and result types shared by the modules, the exceptions the services
    throw, and JavaScript truthiness of the values the handlers test with `if (x)`. */
module Base {

  datatype Option<T> = None | Some(value: T)

  /** The exceptions of the services: NestJS turns BadRequestException into a
      400 and UnauthorizedException into a 401. StoreFailure stands for an error
      raised by the database (a unique-constraint violation, a relation to a
      missing row, a query with an undefined unique key) that the service does
      not catch; RuntimeFailure stands for an uncaught JavaScript or library
      error (a property read on undefined, bcrypt given undefined). NestJS
      answers both with a 500. */
  datatype HttpError =
    | BadRequest(message: string)
    | Unauthorized(message: string)
    | StoreFailure
    | RuntimeFailure

  datatype Result<T> = Ok(value: T) | Err(error: HttpError)

  /** `if (id)` on a number that may be undefined: undefined and 0 are falsy. */
  predicate TruthyId(x: Option<int>)
  {
    x.Some? && x.value != 0
  }

  /** `if (s)` on a string that may be undefined: undefined and "" are falsy. */
  predicate TruthyText(s: Option<string>)
  {
    s.Some? && s.value != ""
  }
}
