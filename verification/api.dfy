/** The envelope both API handlers return: a numeric status with either an
    error message or a payload. */
module Api {

  datatype Response<+P> =
    | ErrorReply(status: int, error: string)
    | PayloadReply(status: int, payload: P)

  const Unauthorized: int := 401
  const BadRequest: int := 400
  const Forbidden: int := 403
  const ServerError: int := 500
  const Created: int := 201
  const Ok: int := 200

  const AuthenticationRequired: string := "Authentication required"
  const AccessDenied: string := "Access denied"
}
