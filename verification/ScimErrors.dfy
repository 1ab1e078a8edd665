/** ScimExceptionFilter: how an exception reaches the client (section 3.12 of RFC 7644). */
module ScimErrors {
  import opened Prelude
  import opened Tables

  datatype Exception =
    | HttpException(httpStatus: int, message: string)
    | PrismaFailure(code: PrismaError)
    | Unexpected

  function NotFoundException(message: string): Exception {
    HttpException(404, message)
  }

  function ConflictException(message: string): Exception {
    HttpException(409, message)
  }

  datatype ScimError = ScimError(status: int, detail: string, scimType: Option<string>)

  function MapPrismaError(code: PrismaError): ScimError {
    match code
    case P2002 => ScimError(409, "A resource with the same unique attribute already exists", Some("uniqueness"))
    case P2025 => ScimError(404, "Resource not found", None)
    case P2023 => ScimError(404, "Resource not found", None)
    case P2003 => ScimError(400, "Referenced resource does not exist", Some("invalidValue"))
    case OtherCode(_) => ScimError(500, "Internal server error", None)
    case Validation => ScimError(500, "Internal server error", None)
  }

  function ToScimError(e: Exception): ScimError {
    match e
    case HttpException(status, message) =>
      ScimError(status, message, if status == 409 then Some("uniqueness") else None)
    case PrismaFailure(code) => MapPrismaError(code)
    case Unexpected => ScimError(500, "Internal server error", None)
  }

  /** The codes of a lost race look like the failed pre-check, a malformed id like a missing one, and any
      other failure is a 500. Only a conflict and a bad reference carry a type. */
  lemma FilterTable(e: Exception, message: string)
    ensures ToScimError(ConflictException(message)) == MapPrismaError(P2002).(detail := message)
    ensures ToScimError(NotFoundException(message)) == MapPrismaError(P2025).(detail := message)
    ensures MapPrismaError(P2023) == MapPrismaError(P2025)
    ensures e.PrismaFailure? && e.code !in {P2002, P2003, P2023, P2025} ==> ToScimError(e) == ToScimError(Unexpected)
    ensures ToScimError(Unexpected).status == 500
    ensures e.HttpException? ==> ToScimError(e).status == e.httpStatus && ToScimError(e).detail == e.message
    ensures ToScimError(e).scimType == Some("uniqueness") <==> ToScimError(e).status == 409
    ensures ToScimError(e).scimType == Some("invalidValue") <==> e == PrismaFailure(P2003)
    ensures MapPrismaError(P2003).status == 400
  {
  }
}
