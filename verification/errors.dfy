/** The error kinds the core throws (`BadRequestError`, `NotFoundError`) and
    the errors the database reports, which the core passes on unchanged. */
module Errors {

  datatype Error =
    | BadRequest(messages: seq<string>)
    | NotFound(message: string)
    | DbError(reason: string)
}
